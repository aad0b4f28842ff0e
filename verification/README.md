# NameTag core: a verified model

The project models the parts of the NameTag named-entity recogniser whose correctness is not
visible from any single function, and proves what they are for.

* **LZMA codec.** `RangeCoder` holds the encoder object, whose cache, pending run and truncated
  `low` are proved to denote an unbounded-precision interval, and the decoder's lazy form of the same.
  `BitModels`, `Trees`, `Symbols` and `Codec` build bit trees, symbols and whole parses on it;
  `Encoder` and `Decoder` are the two programs as objects; `Decoding`, `Lookahead` and `DryRun`
  prove that the decoder retraces the encoder, that 20 bytes of input always suffice for a symbol,
  and that the dry run foretells the real one; `Runs` gives any input, encoded or not, the outcome of a
  run symbol by symbol, which the program's pieces do not change. `Format` says which bits a symbol has, and
  `Compressor` adds the file header. The optimal parser is an oracle: the results hold for any parse that
  describes the data.
* **Match finder.** `MatchFinder`, `MatchTree` and `Bt4` model the cyclic son array as a forest of
  search trees over suffixes. Each position carries a ghost set of the positions below it; an
  insertion only shrinks the sets of older positions, which is what makes the order provable
  without separating the trees. `Bt4.ReportedDescribes` hands every reported match to the encoder.
  `MatchComplete` and `Bt4Complete` prove the other direction: what a search with enough budget must find.
* **BILOU decoding.** `Viterbi` states what is maximised, `BestDecoding` the rows and back-pointers,
  `Recognition` the step from classifier outcomes and hard decisions to rows, `Sentence` the object
  that is filled in place, `Recognizer` all stages and the extraction. Probabilities are real numbers.
* **Gazetteers and output.** `TrieBuilding`, `Gazetteers` and `HardDecisions` give the trie and its
  nondeterministic walk their meaning as sets of paths; `Entities`, `Containers` and `PostMatches`
  keep entities nested; `XmlPrinter` and `Conll` print them. `Pipeline` joins all of this for one sentence.
* **Around these.** `Utf8`, `FeatureIds`, `Network`, `EntityMaps`, `Binary` and `Models`.

Methods that change state are proved against specification functions; the lemmas beside them prove
what those functions mean. Conventions: a byte is an integer below 256 (the match finder uses
8-bit vectors, because its hashes are bit operations), integers are unbounded unless a reduction modulo
2^32 is written out, an exception or abort of the original is a failing result.

Places where the code does not do what one might expect, stated as lemmas:

* `Utf8.OverlongZero`: decoding a terminated string stops at the overlong form of zero, so it can be
  shorter than decoding the same bytes with a length; `Utf8.TerminatedAgrees` says exactly when the two
  agree. `Utf8.DecodeEncode` and `Utf8.EncodeDecode` say exactly when the two directions undo each other;
  the accepted language is wider than that of section 3 of RFC 3629.
* `FeatureIds.OuterBelow`: the comment at src/features/feature_processor_instances.cpp:46 says that
  looking up the empty string returns the window. It never does; words outside the sentence share
  numbers with other features, which the range checks nevertheless allow.
* `Bilou.UnitReadsBack`: the outcome of a unit entity of unknown type reads back as the beginning of one.
  `Conll.OutcomesLegal` says exactly when the outcomes that loading stores read back as a legal sequence.
* `Containers.Crossing`: when some entities are nested in others, adding containers can
  produce entities that cross; `Containers.NestedIfFits` says exactly when it does not. No sequence of
  processors leads from decoded entities to such a list: `Containers.Layered` is what all their lists satisfy.
* `TrieBuilding.EntryReached`: an entry reaches its node exactly if each token has a text to match by; a
  token that the tagger gives no raw lemmas has no edge in a trie that matches by raw lemmas.

## Model

| member | source | states |
|---|---|---|
| Pipeline.RecognizeAndPrint | src/run_ner.cpp:132-172 | one sentence end to end: the labels are a legal best decoding under the hard decisions that the gazetteers and the URL detector make, its spans are exactly the decoded entities, each entity processor's step is the one its own contract explains, and the printed tags read back as exactly the result, each tag right before or after its tokens, around text put out once and in order |
| Compressor.SaveThenLoad | src/utils/compressor_load.cpp:1387-1408 | for any data and any parse of it, loading what saving wrote restores the data and leaves whatever follows in the file; saving succeeds exactly if the stream of the parse fits its buffer and both lengths their fields |
| Compressor.EveryDataParses | src/utils/compressor_save.cpp:2799-2955 | every data has a parse, so everything can be saved: literals alone describe it |
| RangeCoder.RangeEncoder.ShiftLow | src/utils/compressor_save.cpp:1604-1623 | the emitted bytes, the cache, the pending run and low denote, after the shift, exactly 256 times what they denoted; a carry is absorbed by the cached byte |
| RangeCoder.RangeEncoder.Emit | src/utils/compressor_save.cpp:1604-1623 | writing out the cache and its run adds the carry to the number they denote; bytes already written stay as they are |
| RangeCoder.NumCarried | src/utils/compressor_save.cpp:1604-1623 | a run of pending bytes written with a carry denotes the run plus one |
| RangeCoder.RangeEncoder.EncodeBit | src/utils/compressor_save.cpp:1647-1668 | the truncated coder does what unbounded arithmetic does: its state denotes the exact interval after the bit, and the probability adapts |
| RangeCoder.RangeEncoder.EncodeDirectBit | src/utils/compressor_save.cpp:1632-1645 | the same for a bit of even odds |
| RangeCoder.RangeEncoder.FlushData | src/utils/compressor_save.cpp:1625-1630 | flushing writes the exact lower bound: the whole output denotes it |
| RangeCoder.CodeNormal | src/utils/compressor_save.cpp:1632-1668 | a coded bit keeps the range between 2^24 and 2^32: one normalisation always suffices |
| RangeCoder.BoundParts | src/utils/compressor_load.cpp:395-397 | the bound splits the range in proportion to the probability, to 11 bits |
| RangeCoder.Adapt | src/utils/compressor_load.cpp:396-397 | probabilities stay within 31 and 2017 |
| RangeCoder.AdaptStops | src/utils/compressor_load.cpp:396-397 | adapting moves the probability towards the bit seen, and stops exactly within 31 of its end |
| RangeCoder.InsideBack | src/utils/compressor_save.cpp:1632-1668 | intervals nest: a stream inside a later interval is inside every earlier one |
| RangeCoder.BitRecovered | src/utils/compressor_load.cpp:393-401 | a decoder in step reads the adaptive bit that was coded, by lazy normalisation, and stays in step |
| RangeCoder.DirectRecovered | src/utils/compressor_load.cpp:393-393 | a decoder in step reads the direct bit that was coded, by the sign-bit trick, and stays in step |
| RangeCoder.StartInStep | src/utils/compressor_load.cpp:1054-1059 | the first byte of every stream is 0 and the decoder starts in step |
| BitModels.TablesApart | src/utils/compressor_load.cpp:446-486 | the encoder's separate arrays lie side by side without overlap in the decoder's flat array |
| BitModels.AgreeUpdate | src/utils/compressor_load.cpp:446-486 | adapting one probability in both layouts keeps the layouts in agreement |
| BitModels.Transmit | src/utils/compressor_load.cpp:393-401 | for every sequence of events: whatever the encoder sends on the way to a stream, the decoder of that stream reads, ending in step with agreeing probabilities |
| Trees.TreeRead | src/utils/compressor_save.cpp:1761-1773 | the bit-tree decoder returns the leaf the encoder sent, after exactly its events |
| Trees.MatchedRead | src/utils/compressor_save.cpp:1681-1693 | the matched-literal decoder returns the literal the encoder sent although the two keep their offsets differently |
| Trees.ReverseRead | src/utils/compressor_save.cpp:1775-1786 | the reverse-tree decoder returns the value, if it has no more bits than the tree levels |
| Trees.DirectRead | src/utils/compressor_load.cpp:696-720 | the direct-bit loop turns the upper bits of a value back into the value |
| Symbols.LenRead | src/utils/compressor_save.cpp:1828-1849 | length coding and decoding are inverse over the three ranges |
| Symbols.SlotFacts | src/utils/compressor_save.cpp:1222-1248 | what a distance slot means: the two top bits and the number of the rest |
| Symbols.DistRead | src/utils/compressor_save.cpp:2899-2917 | distance coding (slot, reversed special bits, direct and align bits) and decoding are inverse |
| Symbols.RepRead | src/utils/compressor_save.cpp:2860-2892 | repeated-match coding and decoding are inverse, short repetition included |
| Symbols.SymbolRead | src/utils/compressor_load.cpp:507-760 | the symbol reader returns exactly the symbol whose events were sent, from any state and context |
| Codec.NextStatesAgree | src/utils/compressor_save.cpp:1540-1543 | the encoder's next-state tables and the decoder's arithmetic agree on all twelve states |
| Codec.StateHistory | src/utils/compressor_save.cpp:1540-1543 | the state tells the latest symbols: from 7 on the last was no literal, and below 7 it tells how many literals came since and what came before them |
| Codec.LiteralContexts | src/utils/compressor_load.cpp:543-544 | two literals share their probabilities exactly if they agree in the lowest lp bits of the position and the highest lc bits of the byte before; otherwise their tables do not overlap |
| Codec.PositionStates | src/utils/compressor_load.cpp:534-534 | two positions share their probabilities exactly if they agree in the lowest pb bits |
| Codec.MovesToFront | src/utils/compressor_save.cpp:2860-2892 | the distance used goes to the front of the latest four, a new one pushes out the last, and the others keep their order |
| Format.SymbolSpells | src/utils/compressor_save.cpp:2841-2923 | the bits of each symbol, whatever the probabilities: leading bits, three ranges of lengths, slot, and the rest of a distance in its two orders |
| Format.TreeNodes | src/utils/compressor_save.cpp:1761-1773 | each bit of a tree is coded with the probability of the node that the bits before it spell |
| Codec.EncodeSymbolOk | src/utils/compressor_save.cpp:2799-2955 | coding a symbol that describes the data keeps the coder well formed and moves on by its length |
| Decoding.StepSafe | src/utils/compressor_load.cpp:507-802 | from any well-formed state a symbol either is an error or leaves a well-formed state that advanced within the limit |
| Decoding.CopyCorrect | src/utils/compressor_load.cpp:756-784 | an overlapping copy by the distance reproduces data that repeats at that distance |
| Decoding.StepTracks | src/utils/compressor_load.cpp:507-802 | one decoded symbol retraces one encoded symbol, up to a cut at the limit, despite distances counted from 0 and from 1 |
| Decoding.FollowStep | src/utils/compressor_load.cpp:507-802 | on an encoded stream no symbol fails and each leads further along it |
| Decoding.TrailEnd | src/utils/compressor_load.cpp:786-802 | at the end of an encoded stream the output is the data, every byte is consumed and code is 0 |
| Runs.RestStep | src/utils/compressor_load.cpp:507-802 | on any input: wherever a symbol's match is cut, the run goes on from what is left to the same outcome |
| Runs.PlainCopied | src/utils/compressor_load.cpp:804-828 | copying part of a cut match earlier, and noting the full dictionary, makes no difference to what follows |
| Runs.CopyTwice | src/utils/compressor_load.cpp:756-784 | an overlapping copy in two pieces is the copy in one |
| Runs.TrailRun | src/utils/compressor_load.cpp:1095-1214 | the run along an encoding fills the buffer with the data and uses every byte |
| Runs.MarkedShort | src/utils/compressor_load.cpp:1095-1214 | an end mark is only read while the buffer has room |
| Lookahead.TwentyBytes | src/utils/compressor_load.cpp:199-202 | from a normalised state any symbol with its closing normalisation reads at most 20 bytes |
| Lookahead.SymbolCost | src/utils/compressor_load.cpp:199-202 | the range a symbol can use up, as a product over its at most 23 adaptive bits, or 22 with 26 direct ones |
| DryRun.TryDummy | src/utils/compressor_load.cpp:863-1051 | without touching a probability the dry run reports missing input exactly when the next symbol and its closing normalisation would read past the input, and otherwise names the kind of symbol the real run decodes |
| Decoder.LzmaDec.GetBit | src/utils/compressor_load.cpp:395-401 | one adaptive bit of the object is one bit of the specification |
| Decoder.LzmaDec.DecodeTree | src/utils/compressor_load.cpp:403-421 | the unrolled tree decoding is the specified one |
| Decoder.LzmaDec.DecodeDistance | src/utils/compressor_load.cpp:670-737 | distance decoding is the specified one |
| Decoder.LzmaDec.DecodeSymbol | src/utils/compressor_load.cpp:507-800 | one round of the loop is one specified step: the same new state, end mark or error |
| Decoder.LzmaDec.DecodeReal | src/utils/compressor_load.cpp:507-802 | decoding up to a limit leaves the outcome of the whole run as it is, fails only if that run is malformed, and never reads past the input |
| Decoder.LzmaDec.WriteRem | src/utils/compressor_load.cpp:804-828 | the rest of a cut match is copied later, and the outcome of the run stays as it is |
| Decoder.LzmaDec.DecodeReal2 | src/utils/compressor_load.cpp:830-851 | cutting the work where the dictionary fills up changes nothing in the outcome of the run, on any input |
| Decoder.LzmaDec.InitStateReal | src/utils/compressor_load.cpp:1083-1093 | every probability even, every distance 1 |
| Decoder.LzmaDec.DecodeRound | src/utils/compressor_load.cpp:1095-1200 | a round leaves the outcome of the run as it is; it reports a data error only of a malformed run and missing input only of an unfinished one, and reads no byte beyond the input |
| Decoder.LzmaDec.DecodeToDic | src/utils/compressor_load.cpp:1095-1214 | on any input the result, the output and the number of bytes used are those of the run that decodes symbol by symbol into one buffer; on an encoding of some data it gives that data and consumes exactly the stream |
| Encoder.FastPosInit | src/utils/compressor_save.cpp:1222-1235 | the table holds the slot of each of the first 2048 distances |
| Encoder.GetPosSlot | src/utils/compressor_save.cpp:1237-1248 | the table with its two shifts gives the slot of every distance below 2^27 |
| Encoder.LzmaEnc.EncodeBit | src/utils/compressor_save.cpp:1647-1668 | one bit on one of the tables: exactly its event is sent |
| Encoder.LzmaEnc.TreeEncode | src/utils/compressor_save.cpp:1761-1773 | sends exactly the tree's events |
| Encoder.LzmaEnc.LitEncode | src/utils/compressor_save.cpp:1670-1679 | sends exactly the events of the literal, by the shifted-symbol loop |
| Encoder.LzmaEnc.LitEncodeMatched | src/utils/compressor_save.cpp:1681-1693 | sends exactly the events of the matched literal |
| Encoder.LzmaEnc.ReverseEncode | src/utils/compressor_save.cpp:1775-1786 | sends exactly the reverse tree's events |
| Encoder.LzmaEnc.EncodeDirectBits | src/utils/compressor_save.cpp:1632-1645 | sends exactly the direct bits, from the highest |
| Encoder.LzmaEnc.LenEncode | src/utils/compressor_save.cpp:1828-1849 | sends exactly the events of the length |
| Encoder.LzmaEnc.DistEncode | src/utils/compressor_save.cpp:2899-2917 | sends exactly the events of the distance |
| Encoder.LzmaEnc.CodeLiteral | src/utils/compressor_save.cpp:2841-2856 | the literal branch has the effect of coding the literal |
| Encoder.LzmaEnc.CodeMatch | src/utils/compressor_save.cpp:2893-2923 | the match branch has the effect of coding the match |
| Encoder.LzmaEnc.CodeRep | src/utils/compressor_save.cpp:2857-2892 | the repeated-match branch has the effect of coding the repetition and moves its distance to the front |
| Encoder.LzmaEnc.CodeShortRep | src/utils/compressor_save.cpp:2857-2887 | the same for a single repeated byte |
| Encoder.LzmaEnc.CodeAll | src/utils/compressor_save.cpp:2799-2955 | for any parse of the data, the bytes written are an encoding of the data |
| Compressor.PropsRoundTrip | src/utils/compressor_load.cpp:1274-1298 | the five property bytes decode to the same parameters and the announced dictionary size |
| Compressor.AnnouncedLeast | src/utils/compressor_save.cpp:3240-3251 | the announced dictionary size is the least of the form 2 or 3 times a power of two that is not below the one used |
| Compressor.DefaultProps | src/utils/compressor_save.cpp:3314-3335 | the five property bytes of every file that is saved |
| Compressor.CrcSteps | src/utils/compressor_load.cpp:1394-1394 | how the checksum changes with either length, modulo 2^32 |
| Compressor.LargerDictionary | src/utils/compressor_save.cpp:3225-3252 | announcing a larger dictionary than was used admits the same parse and the same stream |
| Compressor.ImageFields | src/utils/compressor_save.cpp:3314-3335 | the header fields, the stream and the rest are found where the loader looks for them |
| Compressor.Save | src/utils/compressor_save.cpp:3314-3335 | writes the image of an encoding of the data, or fails exactly on a size that data and parse determine |
| Compressor.Load | src/utils/compressor_load.cpp:1387-1408 | accepts exactly the files that hold something: a header with the right checksum and properties, and a stream whose run fills the announced length and uses the announced bytes; it returns that output and what follows, and on the image of some data the data |
| MatchFinder.Between | src/utils/compressor_save.cpp:664-717 | a suffix between two others shares their common prefix: each comparison may start at the smaller known length |
| MatchFinder.GetMatchesSpec1 | src/utils/compressor_save.cpp:664-717 | leaves the son array of the specified insertion and reports the specified matches |
| MatchFinder.SkipMatchesSpec | src/utils/compressor_save.cpp:719-767 | leaves the same son array as the search with matches: skip refines get |
| MatchFinder.CyclicIndex | src/utils/compressor_save.cpp:674-680 | the wrapped index of a position some bytes back is its residue |
| MatchTree.Justified | src/utils/compressor_save.cpp:676-700 | the candidate agrees with the current position as far as the comparison assumes |
| MatchTree.WalkTreeOn | src/utils/compressor_save.cpp:664-717 | a round of the walk keeps the ordered forest with two open slots |
| MatchTree.InsertTree | src/utils/compressor_save.cpp:664-717 | a whole insertion keeps the forest of the window ordered |
| MatchTree.FoundTrue | src/utils/compressor_save.cpp:664-717 | everything reported along a walk is a true match, of strictly increasing length |
| MatchTree.WalkSound | src/utils/compressor_save.cpp:664-717 | from any ordered forest: inserting keeps it ordered for the next position and reports true matches only |
| MatchTree.ForestShorter | src/utils/compressor_save.cpp:573-578 | a forest stays one when fewer bytes may be compared near the end of the data |
| MatchComplete.FoundLongest | src/utils/compressor_save.cpp:664-717 | a walk that is not cut short reports a match at least as long as any in the tree |
| MatchComplete.InsertHolds | src/utils/compressor_save.cpp:664-717 | an insertion that is not cut short keeps in the tree every position it held, unless it is dropped for a later one with the same bytes |
| MatchComplete.InsertForeign | src/utils/compressor_save.cpp:664-717 | an insertion leaves every tree that shares no position with its own as it is |
| Bt4.HashTwo | src/utils/compressor_save.cpp:182-186 | an equal two-byte hash and one equal byte are two equal bytes |
| Bt4.HashThree | src/utils/compressor_save.cpp:182-186 | an equal three-byte hash and one equal byte are three equal bytes |
| Bt4.StepOk | src/utils/compressor_save.cpp:850-895 | each step keeps buckets and forest in order, in every reachable state |
| Bt4.ReportedTrue | src/utils/compressor_save.cpp:850-895 | in every reachable state each reported pair is a match of the data inside the window, of at least two bytes, and lengths strictly increase |
| Bt4.ReportedDescribes | src/utils/compressor_save.cpp:850-895 | every reported match, cut to any length from two on, is an operation that describes the data for the encoder |
| Bt4.HitsReported | src/utils/compressor_save.cpp:868-891 | a match at the head of the three- or two-byte bucket is always reported, with the length to which the data agree |
| Bt4Complete.CompleteStep | src/utils/compressor_save.cpp:850-895 | with a budget of at least the window, each step keeps every position of the window in the tree of its hash, itself or a later one with the same bytes |
| Bt4Complete.RunLatest | src/utils/compressor_save.cpp:850-895 | in every state of a run the short buckets hold the latest position of each hash |
| Bt4Complete.LongestInRun | src/utils/compressor_save.cpp:850-895 | in every state of a run with such a budget the last match reported is as long as any of four bytes or more in the window |
| Bt4.ShortMatches | src/utils/compressor_save.cpp:868-891 | the matches taken from the two- and three-byte heads, the last one extended to its full length; HitsReported says what they are |
| Bt4.Bt4MatchFinder.SetLimits | src/utils/compressor_save.cpp:557-580 | the cached limits are the ones that hold until the next check |
| Bt4.Bt4MatchFinder.MovePos | src/utils/compressor_save.cpp:769-772 | moving on keeps cached limits and cyclic position exact |
| Bt4.Bt4MatchFinder.GetMatches | src/utils/compressor_save.cpp:850-895 | takes one specified step and reports what is specified for it |
| Bt4.Bt4MatchFinder.Skip | src/utils/compressor_save.cpp:999-1013 | takes as many specified steps as asked: skipping never changes later matches |
| Bilou.OutcomeRoundTrip | src/bilou/bilou_entity.h:25-54 | label and entity type code to an outcome below the total and back, by the numbers I 0, L 1, O 2, B 3 and U 4 and two more for each type |
| Bilou.UnitReadsBack | src/bilou/bilou_entity.h:25-54 | a label with an entity type reads back as itself exactly if the type is known |
| Bilou.ExtractEntities | src/ner/bilou_ner.cpp:79-87 | on a legal labelling the loop returns exactly the marked entities, sorted, disjoint and covering every word that is not outside; on any labelling the spans stay flat |
| Bilou.SpansUnique | src/ner/bilou_ner.cpp:79-87 | a labelling marks its entities in one way only |
| Bilou.PaintSpans | src/ner/bilou_ner.cpp:79-87 | any flat spans are the entities of the labelling they paint |
| Bilou.SpansLegal | src/ner/bilou_ner.cpp:79-87 | whatever consists of complete blocks is legal |
| Viterbi.BestIsUpper | src/bilou/bilou_probabilities.cpp:26-81 | no legal prefix is heavier than the table entry of its last label |
| Viterbi.BestAttained | src/bilou/bilou_probabilities.cpp:26-81 | a positive table entry is the weight of some legal prefix |
| Viterbi.UpdateTracks | src/bilou/bilou_probabilities.cpp:45-54 | rescaling at every word leaves the table of best weights up to one positive factor |
| Viterbi.DivisorPositive | src/bilou/bilou_probabilities.cpp:45-54 | an update may divide exactly when some legal prefix of positive weight is left |
| BestDecoding.GlobalProbabilities.Init | src/bilou/bilou_probabilities.cpp:15-24 | the first word cannot continue an entity |
| BestDecoding.GlobalProbabilities.Update | src/bilou/bilou_probabilities.cpp:26-81 | each label gets its local probability times that of a best allowed predecessor over the divisor, with a pointer to it and, when it continues, its entity |
| BestDecoding.RowsTrack | src/bilou/bilou_probabilities.cpp:15-81 | after every word the row is the table of best weights up to a positive factor |
| BestDecoding.ChainBest | src/bilou/ner_sentence.cpp:42-55 | a traced prefix of positive value is legal and has the best weight |
| BestDecoding.DecodingOptimal | src/bilou/ner_sentence.cpp:42-55 | over sentences of any length: no legal labelling is heavier than the decoded one, which is legal as soon as some legal labelling has positive weight |
| Recognition.FillBilouProbabilities | src/ner/bilou_ner.cpp:113-124 | each label gets its first greatest outcome and the entity of that, or -1 and its old entity |
| Recognition.FilledOutcomes | src/bilou/bilou_entity.h:25-37 | which outcome is which: I, L and O have the first three, and B and U take the first greatest of the odd and even ones after them, with its entity type |
| Recognition.FilledSummarizes | src/ner/bilou_ner.cpp:113-124 | non-negative outcomes for at least one type leave, for each label, a greatest outcome with the entity it belongs to |
| Recognition.HardSummarizes | src/features/feature_processor_instances.cpp:510-521 | a hard decision is what outcomes concentrated on that label would leave |
| Recognition.OutcomesOptimal | src/ner/bilou_ner.cpp:57-76 | the decoded labels with entities have the greatest product of outcomes among all legal sequences of labels with entities, although one entity per label is kept |
| Recognition.EntityAlong | src/bilou/bilou_probabilities.cpp:60-71 | every word of a decoded entity carries the entity type found at its first word |
| Recognition.HardFeasible | src/features/feature_processor_instances.cpp:491-521 | complete hard spans among words with all labels possible always leave a legal prefix of positive weight |
| Recognition.HardDecoded | src/features/feature_processor_instances.cpp:491-521 | the decoding then is legal, of positive weight, and repeats each hard span with its type |
| Sentence.NerSentence.ClassifyWords | src/ner/bilou_ner.cpp:60-73 | no update divides by zero, words with hard decisions are left alone, and the rows are those of the final local probabilities |
| Sentence.NerSentence.ComputeBestDecoding | src/bilou/ner_sentence.cpp:42-55 | the best labels are those traced back from a greatest closing label |
| Sentence.NerSentence.FillPreviousStage | src/bilou/ner_sentence.cpp:57-62 | the next stage sees the decoded label and its entity |
| Recognizer.StageOptimal | src/ner/bilou_ner.cpp:57-76 | among all legal sequences that respect the hard decisions none has a greater product of scores than the decoded one |
| Recognizer.StoredSpans | src/ner/bilou_ner.cpp:79-87 | the stored entities are the decoded ones, each of one type, and every hard span is among them as written |
| Recognizer.Recognize | src/ner/bilou_ner.cpp:37-98 | the whole of recognition up to the entity processors, over any number of stages |
| Gazetteers.ReachesStep | src/features/feature_processor_instances.cpp:481-489 | reaching a node over one word more is crossing one edge from a node reached before |
| Gazetteers.NextNodes | src/features/feature_processor_instances.cpp:482-489 | the new nodes are exactly the children under some form of the word, each once |
| Gazetteers.Walk | src/features/feature_processor_instances.cpp:481-489 | the node list is, without repetition, exactly the set of nodes labelled by one form per word |
| Gazetteers.FindHardPre | src/features/feature_processor_instances.cpp:477-495 | the longest match over undecided words, with ties to the smallest node, or none |
| Gazetteers.FindHardPost | src/features/feature_processor_instances.cpp:549-570 | the longest match that ends before the next entity |
| HardDecisions.PaintedHard | src/features/feature_processor_instances.cpp:510-521 | writing a complete span over undecided words leaves complete spans |
| HardDecisions.ChoiceUnique | src/features/feature_processor_instances.cpp:477-521 | the leftmost-longest choice is unique |
| HardDecisions.HardPreGazetteers | src/features/feature_processor_instances.cpp:469-528 | decides exactly the leftmost-longest non-overlapping matches and nothing else |
| HardDecisions.UrlEmailDetector | src/features/feature_processor_instances.cpp:1001-1015 | undecided URLs and emails become unit entities of their type; decided words stay |
| TrieBuilding.NativeIsAny | src/features/feature_processor_instances.cpp:736-756 | each native form of a word is among its forms in any case |
| TrieBuilding.RecaseMatchSource | src/features/feature_processor_instances.cpp:724-756 | exactly the recased texts that the mode and the shape of the form ask for |
| TrieBuilding.SourcesByShape | src/features/feature_processor_instances.cpp:724-756 | natively a word has the one case that its shape tells; in any case it also matches in lower case, and in title case if it begins in upper case |
| TrieBuilding.RecasedAt | src/features/feature_processor_instances.cpp:708-721 | recasing goes letter by letter, and title case is upper case for the first letter only |
| TrieBuilding.ReachesPrefix | src/features/feature_processor_instances.cpp:659-703 | the node of a token prefix is reached over some words exactly if each word shares a form with its token |
| TrieBuilding.EntryReached | src/features/feature_processor_instances.cpp:659-703 | an entry whose tokens stand in the text tagged as they are on their own reaches its node exactly if each token has a text to match by |
| TrieBuilding.TrieBuilder.Add | src/features/feature_processor_instances.cpp:666-703 | an added entry owns a node, older nodes keep their number and marks, edges remain exactly the native forms, and the node of the entry takes the feature once, and mode and entity if its own mode is weaker |
| TrieBuilding.TrieBuilder.AddAll | src/features/feature_processor_instances.cpp:659-703 | over any list of entries every node carries the marks of the entries that end there |
| TrieBuilding.MarksStrongest | src/features/feature_processor_instances.cpp:696-702 | those marks are the strongest mode, the entity of the first entry of that mode, and every feature once |
| Containers.ContainerIsUnion | src/features/feature_processor_instances.cpp:148-178 | a container covers exactly the words of its members |
| Containers.GroupsApart | src/features/feature_processor_instances.cpp:148-178 | no container starts inside another |
| Containers.AddContainers | src/features/feature_processor_instances.cpp:148-178 | on any list: a P of exactly their extent stands before first names and surnames, a T before dates, each before its first member and nowhere else, and nothing is dropped; nested entities stay nested exactly if every container fits, flat ones always do, with containers pairwise disjoint, and layered ones stay layered |
| Containers.NestedIfFits | src/features/feature_processor_instances.cpp:148-178 | weaving containers into nested entities gives a nested list exactly if no container reaches over the end of an entity that starts before it and reaches into it |
| Containers.Crossing | src/features/feature_processor_instances.cpp:148-178 | nested entities and a group whose container crosses one of them |
| Containers.WovenLayered | src/features/feature_processor_instances.cpp:148-178 | over any number of container steps and gazetteers nothing crosses: among layered entities no group starts inside another entity, and adding containers keeps them layered |
| PostMatches.PostGazetteers | src/features/feature_processor_instances.cpp:530-579 | for entities in order of their starts: added matches are the longest in their gap, disjoint from everything present; nothing is dropped; words left over start no match; nested entities stay nested, flat ones flat and layered ones layered |
| Entities.SortEntities | src/run_ner.cpp:174-184 | a sorted permutation; a sorted list is left as it is |
| Entities.SortedNested | src/run_ner.cpp:174-184 | sorting any laminar family gives a properly nested list |
| XmlPrinter.OpenStep | src/run_ner.cpp:151-155 | an entity that starts at a token opens inside all that are open |
| XmlPrinter.CloseStep | src/run_ner.cpp:160-164 | closing the innermost open entity completes it with its own length |
| XmlPrinter.PrintSentence | src/run_ner.cpp:146-167 | the tags read back as exactly the entities, the stack is empty at the end, the text is put out once and in order, an opening tag is followed by another or by its token and a closing tag follows another or its token, and sentence tags stand once |
| XmlPrinter.PrintParagraph | src/run_ner.cpp:132-172 | over any number of sentences the whole paragraph is put out once and in order, and each sentence reads back with its tags at its tokens |
| Pipeline.ProcessEntities | src/ner/bilou_ner.cpp:89-90 | any sequence of processors in template order: each step is containers woven in or longest matches filled into the gaps; decoded entities are kept, the sorted result is nested, and with at most one container step the sort finds it in order |
| Conll.CoveringExact | src/run_ner.cpp:75-92 | the printed stack names exactly the entities that cover the word |
| Conll.CoveringOrder | src/run_ner.cpp:75-92 | they come in their order, as often as they are listed, and nested entities outermost first |
| Conll.LabelReads | src/run_ner.cpp:75-92 | a printed label cut at its bars is the entities on the stack in order |
| Conll.PrintConll | src/run_ner.cpp:75-92 | each label names the entities that cover the word, in order, with B where they start |
| Conll.LabelsLegal | src/ner/bilou_ner_trainer.cpp:101-111 | the labels that valid IOB columns stand for always form a legal BILOU sequence |
| Conll.OutcomesLegal | src/ner/bilou_ner_trainer.cpp:91-111 | the outcomes stored for them read back as a legal sequence exactly if no unit entity is of unknown type |
| Conll.UnknownUnitStored | src/ner/bilou_ner_trainer.cpp:91-111 | a one-word entity of unknown type is stored as a beginning that never ends |
| Conll.ChunksAreBlocks | src/ner/bilou_ner_trainer.cpp:101-111 | the entities of that sequence are exactly the IOB chunks: maximal stretches of one type whose labels after the first say I |
| Conll.LoadLabels | src/ner/bilou_ner_trainer.cpp:77-111 | outcomes of label and type for valid labels, failure exactly on an invalid one; what is stored reads back legally exactly if names may be added or every unit entity has a known name |
| Conll.ConllRoundTrip | src/run_ner.cpp:75-92 | flat entities with names, printed and read back, are the same spans with the same types |
| EntityMaps.EntityMap.Parse | src/ner/entity_map.cpp:17-24 | names and numbers stay inverse; a new name gets the next number |
| FeatureIds.AddedOk | src/features/feature_processor.h:40-47 | a new key owns a block disjoint from all others, below the new total |
| FeatureIds.FeatureTemplates.Parse | src/features/feature_processor.cpp:20-32 | a new processor looks up the empty string and its window fits |
| FeatureIds.FeatureTemplates.Lookup | src/features/feature_processor.h:40-47 | known keys keep their number, a new one gets the next block when adding and nothing else changes, and without adding it is unknown |
| FeatureIds.ApplyInRange | src/features/feature_processor_instances.cpp:28-36 | one number for each word of the range inside the sentence, shifted by its offset |
| FeatureIds.InWindowBelow | src/features/feature_processor_instances.cpp:26-36 | every number put out for a key is below the total |
| FeatureIds.OuterBelow | src/features/feature_processor_instances.cpp:38-46 | so is every number for an outer word, which is never the empty string's own |
| FeatureIds.ProcessWords | src/features/feature_processor_instances.cpp:204-209 | each word gains exactly the shifted numbers of the keys in its window and those for words outside; every feature of the sentence stays below the total, so the range checks of training pass |
| FeatureIds.FromWordsExact | src/features/feature_processor_instances.cpp:28-36 | those of the keys: a number is among them exactly if it is that of a known key in the window shifted by its offset |
| Network.SparseIsDense | src/classifier/network_classifier.cpp:181-187 | starting from the missing weight and correcting is summing each feature's stored or missing weight |
| Network.PropagateDirect | src/classifier/network_classifier.cpp:180-187 | each outcome gets exactly its dense score |
| Network.Softmax | src/classifier/network_classifier.cpp:210-217 | a positive distribution that sums to one, in proportion to the exponentials |
| Network.Propagate | src/classifier/network_classifier.cpp:180-218 | the distribution of dense scores plus the hidden layer's contribution |
| Network.BuildIndices | src/classifier/network_classifier.cpp:80-96 | each feature keeps exactly the outcomes it was seen with, each once, in increasing order and with weight 0 |
| Network.BackpropagateDirect | src/classifier/network_classifier.cpp:229-237 | the shape stays and each weight moves once for each occurrence of its feature |
| Utf8.Append | src/unilib/utf8.h:227-233 | appends the encoding of the code point |
| Utf8.Encode | src/unilib/utf8.cpp:69-74 | the encodings of all code points in order |
| Utf8.Decode | src/unilib/utf8.h:106-130 | pointer and length move by the same positive number of bytes, to the end of the first character |
| Utf8.DecodeString | src/unilib/utf8.cpp:62-67 | the code points of all characters in order |
| Utf8.DecodeTerminatedString | src/unilib/utf8.cpp:55-60 | the code points before the first zero; the terminator is never passed |
| Utf8.OverlongZero | src/unilib/utf8.cpp:55-60 | the overlong form of zero is valid, and ends a terminated string early |
| Utf8.TerminatedAgrees | src/unilib/utf8.cpp:55-67 | both forms of decoding agree exactly if no character is one of the four encodings of zero |
| Utf8.IsValid | src/unilib/utf8.cpp:37-53 | valid exactly when no character is replaced |
| Utf8.IsValidTerminated | src/unilib/utf8.cpp:19-35 | a terminated string is valid exactly when the text before its terminator is |
| Utf8.DecodeEncode | src/unilib/utf8.cpp:69-74 | decoding undoes encoding exactly for code points below 0x200000 |
| Utf8.EncodeDecode | src/unilib/utf8.cpp:62-74 | encoding undoes decoding exactly on valid text without overlong forms |
| Binary.BinaryEncoder.AddStr | src/utils/binary_encoder.h:71-75 | a string is its length in one byte, or 255 and four bytes from length 255 on, and its bytes |
| Binary.BinaryDecoder.NextStr | src/utils/binary_decoder.h:83-87 | reads back what was added and moves past exactly that, the boundary at 255 included; it fails exactly if no string stands there |
| Binary.BinaryDecoder.Next4B | src/utils/binary_decoder.h:75-81 | reads the four-byte number that stands there or fails without moving |
| Bytes.LittleEndian | src/utils/binary_encoder.h:57-69 | numbers are stored by their digits to the base 256, the lowest first |
| Models.SaveEntities | src/ner/entity_map_encoder.cpp:17-25 | writes the names in order, or fails exactly on a size |
| Models.LoadEntities | src/ner/entity_map.cpp:30-46 | accepts only a buffer that is a count and so many names and nothing else, and then has these names in order, each with the number of its first place; distinct saved names are restored |
| Models.SaveKeys | src/features/feature_processor.cpp:44-56 | writes window, bucket count and the entries of the map, each once and in order of their keys, or fails exactly on a size |
| Models.KeyParts | src/features/feature_processor.cpp:44-56 | where window, bucket count, number of entries and entries stand |
| Models.BeforeMeans | src/features/feature_processor.cpp:51-52 | the order of keys is lexicographic by bytes |
| Models.LoadKeys | src/features/feature_processor.cpp:33-42 | restores window and key map from any listing of the map and consumes exactly what was written; whatever it accepts is such a listing, the first of equal keys kept |
| Models.ListingGivesMap | src/features/feature_processor.cpp:33-42 | inserting the entries of any listing of a map one by one gives the map |
| Models.KeysRoundTrip | src/features/feature_processor.cpp:33-56 | a key map saved and loaded is the same map, and what follows it is left; saving succeeds exactly if every key length, every number and the counts have room in four bytes |
| Models.SaveMatrix | src/classifier/network_classifier_encoder.cpp:37-44 | writes every row, or fails exactly on a size |
| Models.LoadMatrix | src/classifier/network_classifier.cpp:52-60 | restores every row and consumes exactly what was written, and accepts nothing that is not a matrix |
| Models.NetworkParts | src/classifier/network_classifier_encoder.cpp:16-35 | where each part of a stored network stands: indices, missing weight, weights, hidden size and weights, number of outcomes |
| Models.LoadNetwork | src/classifier/network_classifier.cpp:22-50 | accepts a buffer exactly if it is the image of a network with nothing left over, and gives that network |
| Models.NetworkRoundTrip | src/classifier/network_classifier_encoder.cpp:16-35 | a network saved through the compressor and loaded is the same network; saving succeeds exactly if its sizes fit and its bytes can be compressed |
| Models.EntitiesRoundTrip | src/ner/entity_map_encoder.cpp:17-25 | an entity map saved through the compressor and loaded is the same map; saving succeeds exactly if its sizes fit and its bytes can be compressed |

## Left out

- Choice of operations: GetOptimum, GetOptimumFast and the price tables only affect the compression ratio; any parse that describes the data stands for them.
- End mark: compressor::save never writes one; the decoder's end-mark branch is modelled, the finish modes other than the one compressor::load uses are not.
- Decoding over several calls: the temporary input buffer and DecodeToBuf, which compressor::load does not reach.
- Circular dictionary: with one buffer for the whole output the wrapping copy cannot be reached, and the model proves that instead of modelling it.
- Reading past the input: such a byte reads as 0 in the model; the bounds of DecodeReal and DecodeRound show that it is never used.
- Match finder input: stream callbacks, moving the block and 32-bit position normalisation; the data is in memory and below 4 GB. The hash table is three maps instead of one array.
- Match finders for other settings: hash chains and two- or three-byte trees.
- Decoder.LzmaDec.DecodeToDic: on a malformed or unfinished run what is left in the buffer and the number of bytes reported are only bounded.
- Bt4Complete.LongestInRun: with a smaller budget than the window a walk may end early and longer matches stay unreported; MatchComplete.FoundLongest is the statement for one walk that is not cut short.
- BestDecoding.GlobalProbabilities.Update: demands a positive divisor, because the quotient of zeros of the original is not a real number; DivisorPositive says exactly when that demand is met.
- Floating point: rounding, overflow and the float and double widths; exp is any positive function.
- Training: random shuffling, learning rates, hidden-layer backpropagation and convergence.
- Network.BuildIndices: sort and unique of the standard library are a sorted insertion.
- Entities.SortEntities: the sort of the standard library is an insertion sort.
- PostMatches.PostGazetteers: a HARD_POST list with entity NONE, for which the source reads the list of entity names out of range.
- TrieBuilding.TrieBuilder.Add: prefixes are token lists; the original joins tokens with tabs, which is the same as long as no token contains one.
- Taggers, tokenizers, the URL detector and the Unicode tables: their results are inputs or arbitrary functions.
- Recognizer.Recognize: features are not computed; the classifier outcomes of each stage are inputs, positive as Network.Propagate proves them to be.
- XmlPrinter.PrintSentence: marks stand for the printed tags; escaping of the text is not modelled.
- Conll.LoadLabels: splitting lines into columns is not modelled; a label is a whole column.
- Feature identifiers of gazetteers and Brown clusters, which share blocks by design; 32-bit overflow of the total.
- Models.LoadKeys: the bucket count is read and has no meaning; the sort of the standard library is an insertion sort.
- Saving of gazetteers, which are read again from their files when loading.
- Vertical output, the REST server, option parsing, main programs and bindings.
