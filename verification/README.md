# text-translation, verified

A Dafny model of the text-processing core of the text-translation server: the byte-pair encoder, the UTF-8/UTF-16
codec it reads letters with, and the string and batch code around the calls to the translation model. `dafny verify
dfyconfig.toml` checks the whole project.

## What is modelled

**Codec.** `Rfc3629` and `Rfc2781` hold the reference: the grammar and the bits of RFC 3629 (sections 3 and 4) and
the surrogate pairs of RFC 2781 (sections 2.1 and 2.2), over bit vectors of 8, 16 and 32 bits, so masks, shifts and
the wrapping surrogate offset are those of the machine. `Utf8Core`, `Utf8Checked`, `Utf8Backward`, `Utf8Repair` and
`Utf8Unchecked` are the code of `include/utf8`: an iterator is an index into an octet string, an exception is a
result value that carries what the exception carries, and an output iterator appends to a sequence (what was written
before an exception stays written). The two iterator classes are classes.

**Encoder.** `BpeEncoder.Bpe` is the encoder object with its rank table and its cache. Its meaning is given without
a cache: `BpeMerge.Merged` is one merge pass, `BpeTable.Reduced` merges the usable pair of least rank until none is
left, `BpeWords.Encoded` adds letters, marker and separator. `BpeOrder` compares the loop with one pass per rule,
`BpeRoundTrip` proves which words survive encoding and gluing.

**Strings and batches.** `StringUtils` has the three loops of `src/utils.cpp`, `StringLaws` what they promise
together, `Utf8Replace` that replacing octets is replacing code points, `Detokenize` the SentencePiece side of
`src/nmt.cpp`, `NmtBatch` the n-best accumulation, `PadBatch` the tensor layout, `SentenceBatch` the cutting of a
request into sentences. `TextPipeline` puts these together, from a text to its sentences, through a server and back.

The translation server is an oracle: a response is a parameter, `None` when the connection fails. `atof` is a
function parameter and scores are reals. The pieces of the SentencePiece model are a parameter.

**Layout of the proofs.** A method with a loop is proved against a function of its inputs, and that function is what
the lemmas are about. What such a function means is stated apart from its definition, index by index or octet by octet
(`BpeWords.EncodedTokens`, `Utf8Core.DiagnosisMeaning`, `SentenceBatch.SentenceEndsBehind` and others). The loops hide the definitions (`hide`) and reason through one small lemma per round, named
`...Step`; arithmetic on bit vectors stays in lemmas of its own.

## Where the code needs something of its callers

- Delimiters and patterns are not empty; with an empty one the loops of `src/utils.cpp` do not end.
- A word given to `Encode` begins with an octet other than NUL (a NUL ends the word for `strlen`); on an empty word
  `src/bpe.cpp:163-167` pops the marker and then reads the back of an empty vector.
- A line of the merge file has two fields (`src/bpe.cpp:45` indexes both).
- A line of a response has four fields, and no alignment is written beyond the end of its vector (`src/nmt.cpp:224-237`
  indexes without a test); `NmtBatch.FitsIff` and `NmtBatch.BatchFitsIff` say exactly when the second holds, for a
  response and for a batch, and the methods ask for that condition.
- `validate_next` and the iterators are not used at the end of their range.
- The unchecked forms get well-formed input.

## What the proofs say about the code

- Repeating a pair in the merge file disables a pair: ranks count lines, and a rank that reaches the table size reads
  as "no match" (`BpeTable.AllUsableIffDistinct`). The word of the two letters of such a pair stays two tokens, unless
  a rule takes its second letter into the marker (`BpeRoundTrip.RepeatedLineSplitsWord`).
- The lowest-rank-first loop and one pass per rule agree on all words exactly when the table is guarded: where a rule
  uses what a later rule produces, some rule before that one takes the parts apart otherwise
  (`BpeOrder.AgreeIffGuarded`). Tables in which no rule uses what it or a later rule produces are of this kind
  (`BpeOrder.LoopIsFold`), and they are not the only ones (`BpeOrder.GuardedAgrees`).
- The two strip steps of `Encode` are not exclusive: a word that ends in `</w>` loses those four octets under some
  tables (`BpeRoundTrip.MarkerEndIsLost`). A word that ends in the separator is lost under some tables, unless the
  separator has several octets and among them a blank or a line feed, which no rule can hold
  (`BpeRoundTrip.SeparatorEndIsLost`). `BpeRoundTrip.RoundTripIff` gives the exact class of words that survive every
  merge file, among all words `Encode` accepts.
- `next` throws `invalid_code_point` with the code point 0, never the offending one, because the value is stored only
  on success (`Utf8Checked.ReportedIsNotOffending`; U+D800 is an instance, `Utf8Checked.SurrogateReportedAsZero`).
- The inner loop of `replace_invalid` reads `*start` before it compares `start` with `end`
  (`include/utf8/checked.h:95`), so it can read `*end`; the model compares first and says when the source has read
  there. With a valid marker that is exactly on text whose last octet that is no trail octet announces no more octets
  than are left but begins no character (`Utf8Repair.ReadsEndIff`), such as the octets C0 80
  (`Utf8Repair.OverlongReadsEnd`).
- `replace_invalid` drops the iterator that `append` returns (`include/utf8/checked.h:86` and `92`). For an output
  iterator that appends this changes nothing. For one that holds a position, such as a pointer, what follows overwrites
  each mark: the octets FF 41 give just `A` (`Utf8Repair.MarkOverwritten`). When the repair completes, such an output
  holds, up to the position that is returned, what an appending one holds exactly when there was nothing to repair
  (`Utf8Repair.UnmarkedIsRepairedIff`).
- `prior` does not check that the character it reads reaches the position it started from: on the octets 41 80 it reads
  the one octet of `A` (`Utf8Backward.PriorStopsShort`, and for all stray trail octets
  `Utf8Backward.PriorPassesStrays`). The character reaches the position exactly when its lead announces all the trail
  octets that were passed (`Utf8Backward.PriorReachesIff`), and that is exactly when a character ends there
  (`Utf8Backward.PriorReadsLastCharIff`).
- A response whose first line has no alignment and whose second has one makes the source write past the end of the
  alignment vector (`NmtBatch.MissingAlignmentOverflows`).
- `Split` drops empty fields, so the line of a hypothesis is read back exactly when none of its fields is empty
  (`NmtBatch.LineIsReadIff`). An empty sentence makes the alignment pass for the sentence, and without an alignment the
  source reads behind the end of its fields (`NmtBatch.EmptySentenceMisread`).
- Cutting a text into sentences and joining what comes back puts a space behind a terminator that had none: "a.b" comes
  back as "a. b" (`TextPipeline.DotWithoutSpace`). The text comes back as it was exactly when every sentence behind the
  first begins with a mark (`TextPipeline.EchoIff`).

## Model

| member | source | states |
|---|---|---|
| Rfc3629.EncodeChar | include/utf8/checked.h:110-134 | the encoding of a code point is one sequence of the grammar of RFC 3629 section 4 and decodes to that code point |
| Rfc3629.CodePointInjective | include/utf8/core.h:136-249 | no two sequences of the grammar stand for the same code point, so there are no overlong forms |
| Rfc3629.EncodeCodePoint | include/utf8/checked.h:110-154 | encoding the code point of an accepted sequence gives the sequence back |
| Rfc3629.HeadUnique | include/utf8/core.h:251-302 | a text begins with at most one character, so the accepted length is determined |
| Rfc3629.DecodeEncode | include/utf8/checked.h:248-264 | decoding undoes encoding, for all lists of code points |
| Rfc3629.EncodeDecode | include/utf8/checked.h:248-264 | encoding undoes decoding, on the well-formed part of any octet string |
| Rfc3629.ValidIffEncoded | include/utf8/core.h:328-332 | a text is accepted exactly when it is the encoding of some code points |
| Rfc3629.ValidAppend | include/utf8/core.h:316-326 | behind well-formed text the scan goes on as if it began there, in length and in code points |
| Rfc3629.LongestValidPrefix | include/utf8/core.h:316-326 | the length the scan reports is that of the longest well-formed prefix |
| Utf8Core.ChecksMeaning | include/utf8/core.h:282-295 | on a sequence with its announced trail octets the two security checks accept exactly the grammar |
| Utf8Core.TrailsFromMeaning | include/utf8/core.h:149-249 | which of "complete", "cut off by the end" and "broken by another octet" a sequence is |
| Utf8Core.HeadIsShaped | include/utf8/core.h:98-113 | an accepted character has the length its lead announces, and its trail octets |
| Utf8Core.AssembledIsBits | include/utf8/core.h:149-249 | on a sequence with its announced trail octets the masks and shifts give the bits of RFC 3629 section 3 |
| Utf8Core.AssembledLowBits | include/utf8/core.h:149-249 | for any octets the masks and sums put the low bits of the octets side by side |
| Utf8Core.GetSequence1 | include/utf8/core.h:138-147 | one octet is its own value, and there is none at the end |
| Utf8Core.GetSequence2 | include/utf8/core.h:149-172 | for any lead: the verdict on the trail octet, and on success the value the masks assemble |
| Utf8Core.GetSequence3 | include/utf8/core.h:174-206 | for any lead: the first obstacle among the trail octets, and on success the value the masks assemble |
| Utf8Core.GetSequence4 | include/utf8/core.h:208-249 | for any lead: the first obstacle among the trail octets, and on success the value the masks assemble |
| Utf8Core.DiagnosisMeaning | include/utf8/core.h:251-302 | which of the six verdicts a text gets, from its octets and the grammar alone |
| Utf8Core.ValidateNext | include/utf8/core.h:251-302 | accepts exactly the characters of the grammar, steps over the accepted one by its length, otherwise stays put and reports the exact defect |
| Utf8Core.FindInvalid | include/utf8/core.h:316-326 | returns the end of the longest well-formed prefix |
| Utf8Core.IsValid | include/utf8/core.h:328-332 | true exactly for the encodings of code points |
| Utf8Checked.Append | include/utf8/checked.h:110-134 | appends the one character of a code point, and throws with the value for anything else, writing nothing |
| Utf8Checked.Next | include/utf8/checked.h:136-154 | reads and passes the character at the position, or throws the exception for its defect and stays |
| Utf8Checked.NextOutcome | include/utf8/checked.h:136-154 | when `next` gives the code point and when it throws which exception, from the octets and the grammar alone |
| Utf8Checked.ReportedIsNotOffending | include/utf8/checked.h:139-151 | the code point reported as invalid is always 0 and never the one the octets stand for |
| Utf8Checked.SurrogateReportedAsZero | include/utf8/checked.h:139-151 | an instance: the octets of U+D800 are reported as code point 0 |
| Utf8Checked.PeekNext | include/utf8/checked.h:156-160 | reads the character at a position without moving |
| Utf8Checked.FirstErrorPlace | include/utf8/checked.h:257-264 | a conversion throws for the place where the longest well-formed prefix ends |
| Utf8Checked.Utf8To32 | include/utf8/checked.h:257-264 | writes the code points of the longest well-formed prefix and throws exactly when there is more |
| Utf8Checked.Utf32To8 | include/utf8/checked.h:248-255 | writes the encoding of the values up to the first that is no code point, and throws that value |
| Utf8Checked.Distance | include/utf8/checked.h:196-204 | counts the code points of well-formed text and throws on any other |
| Utf8Checked.SurrogateOffsetWraps | include/utf8/core.h:48-53 | the surrogate offset wraps to fca02400 and the lead offset is d7c0 |
| Utf8Checked.SurrogatePair | include/utf8/checked.h:212-216 | the wrapping sum of the source is the pair of RFC 2781 section 2.2 |
| Utf8Checked.SurrogateWords | include/utf8/checked.h:238-241 | the two words of the source are those of RFC 2781 section 2.1, and the lead word stays below dc00 |
| Utf8Checked.Utf16To8 | include/utf8/checked.h:206-231 | writes the encoding of the longest well-formed prefix, throws exactly on ill-formed UTF-16, with the offending word |
| Utf8Checked.Utf8To16 | include/utf8/checked.h:233-246 | writes the UTF-16 of the longest well-formed prefix and throws exactly on ill-formed UTF-8 |
| Rfc2781.Decode16Encode16 | include/utf8/checked.h:206-246 | decoding UTF-16 undoes encoding it |
| Rfc2781.Encode16Decode16 | include/utf8/checked.h:206-246 | encoding UTF-16 undoes decoding it, on the well-formed part of any word string |
| Rfc2781.Valid16IffEncoded | include/utf8/checked.h:206-231 | the word strings converted without exception are exactly the UTF-16 of code points |
| Utf8Checked.Utf8ThroughUtf16 | include/utf8/checked.h:206-246 | on well-formed UTF-8, converting to UTF-16 and back is the identity |
| Utf8Checked.Utf16ThroughUtf8 | include/utf8/checked.h:206-246 | on well-formed UTF-16, converting to UTF-8 and back is the identity |
| Utf8Backward.Prior | include/utf8/checked.h:162-175 | on any text: goes back to the last octet that is no trail octet and reads there, or throws with the exact reason |
| Utf8Backward.PriorOutcome | include/utf8/checked.h:162-175 | what it gives at the front, behind trail octets only, and behind any other octet |
| Utf8Backward.PriorOverChar | include/utf8/checked.h:162-175 | behind a character, `prior` lands on its lead and reads it, whatever stands before |
| Utf8Backward.PriorPassesStrays | include/utf8/checked.h:162-175 | stray trail octets behind a character are passed, and the character in front of them is read |
| Utf8Backward.PriorStopsShort | include/utf8/checked.h:162-175 | an instance: the step back over 41 80 reads a character of one octet |
| Utf8Backward.PriorReachesIff | include/utf8/checked.h:162-175 | the character that is read reaches the position exactly when its lead announces all the trail octets passed |
| Utf8Backward.PriorReadsLastCharIff | include/utf8/checked.h:162-175 | a character ends at the position exactly when `prior` reads one that reaches it |
| Utf8Backward.PriorUndoesNext | include/utf8/checked.h:136-175 | `prior` undoes `next` in position and in value |
| Utf8Backward.WalkBackReverses | include/utf8/checked.h:162-175 | walking back from end to start over well-formed text reads the reverse of its code points |
| Utf8Backward.Utf8Iterator.Make | include/utf8/checked.h:274-281 | an iterator is made exactly for positions inside the range, and throws otherwise, for ranges of any kind |
| Utf8Backward.Utf8Iterator.Dereference | include/utf8/checked.h:284-288 | at a boundary of well-formed text, the first code point after the position |
| Utf8Backward.Utf8Iterator.Equals | include/utf8/checked.h:289-294 | compares positions, and throws for iterators over different texts or different ranges of one text |
| Utf8Backward.Utf8Iterator.Increment | include/utf8/checked.h:299-303 | moves the first code point after the position in front of it and stays on a boundary |
| Utf8Backward.Utf8Iterator.Decrement | include/utf8/checked.h:310-314 | moves the last code point before the position behind it and stays on a boundary |
| Utf8Repair.ReplaceInvalid | include/utf8/checked.h:72-101 | to an output that appends: writes each character and one mark per defect, ends with the exception of the scan, and says whether the source has read `*end`, for any text and marker |
| Utf8Repair.ReplaceInvalidAt | include/utf8/checked.h:72-101 | to an output that holds a position: up to the position it returns stand the characters alone, and the end is the same |
| Utf8Repair.UnmarkedIsRepairedIff | include/utf8/checked.h:72-101 | when the repair completes, both outputs hold the same exactly for well-formed text |
| Utf8Repair.MarkOverwritten | include/utf8/checked.h:85-88 | an instance: at a position, FF 41 is repaired to 41 |
| Utf8Repair.RepairIsValid | include/utf8/checked.h:72-101 | everything the repair writes is well-formed, even when it gives up |
| Utf8Repair.RepairKeepsValidPrefix | include/utf8/checked.h:78-81 | a well-formed beginning is copied unchanged and does not influence the rest |
| Utf8Repair.RepairOfValid | include/utf8/checked.h:72-101 | well-formed text is left as it is, with any marker |
| Utf8Repair.RepairIdempotent | include/utf8/checked.h:72-101 | repairing a second time changes nothing and never throws |
| Utf8Repair.RepairOfStray | include/utf8/checked.h:85-88 | an octet that can begin nothing gives one mark of its own |
| Utf8Repair.RepairOfBroken | include/utf8/checked.h:89-98 | a lead octet with all the trail octets behind it gives one mark when it begins no character and is not cut off by the end |
| Utf8Repair.RepairFailsIffCutOff | include/utf8/checked.h:82-99 | with a valid marker the repair throws exactly when the last octet that is no trail octet announces more octets than are left |
| Utf8Repair.RepairWithInvalidMarker | include/utf8/checked.h:85-92 | with a marker that is no code point the repair ends without exception exactly on well-formed text |
| Utf8Repair.ReadsEndIff | include/utf8/checked.h:95-96 | with a valid marker the inner loop reads `*end` exactly when the last octet that is no trail octet announces no more octets than are left and begins no character, and with another marker never |
| Utf8Repair.OverlongReadsEnd | include/utf8/checked.h:95-96 | an instance: the overlong form C0 80 |
| Utf8Repair.ReplaceInvalidDefault | include/utf8/checked.h:103-108 | with the default marker, to an output that appends: throws exactly on cut-off text, reads `*end` exactly on text that ends in another defect of announced length, and appended to well-formed text the output is well-formed |
| Utf8Repair.DefaultMark | include/utf8/checked.h:103-108 | the default mark is a code point, written as EF BF BD |
| Utf8Unchecked.AppendUnchecked | include/utf8/unchecked.h:37-58 | writes what the checked form writes for a code point |
| Utf8Unchecked.AssembledHead | include/utf8/unchecked.h:66-95 | where a character begins, the announced length and the unchecked masks give its length and code point |
| Utf8Unchecked.NextUnchecked | include/utf8/unchecked.h:66-95 | for any lead octet, the position and the assembled value; on a character, those of the checked form |
| Utf8Unchecked.NextChar | include/utf8/unchecked.h:66-95 | on a character inside a range the unchecked step gives the checked result |
| Utf8Unchecked.PriorUnchecked | include/utf8/unchecked.h:103-109 | where the checked step back succeeds, the same position and value |
| Utf8Unchecked.DistanceUnchecked | include/utf8/unchecked.h:125-133 | on well-formed text, the number of code points |
| Utf8Unchecked.Utf8To32Unchecked | include/utf8/unchecked.h:174-181 | on well-formed text, the output of the checked form |
| Utf8Unchecked.Utf32To8Unchecked | include/utf8/unchecked.h:165-172 | on code points, the output of the checked form |
| Utf8Unchecked.Utf8To16Unchecked | include/utf8/unchecked.h:150-163 | on well-formed UTF-8, the output of the checked form |
| Utf8Unchecked.Utf16To8Unchecked | include/utf8/unchecked.h:135-148 | on well-formed UTF-16, the output of the checked form |
| Utf8Unchecked.UncheckedIterator.Dereference | include/utf8/unchecked.h:192-196 | on a character, what the checked iterator reads |
| Utf8Unchecked.UncheckedIterator.Increment | include/utf8/unchecked.h:205-209 | lands where the checked iterator lands, by the announced length alone |
| Utf8Unchecked.UncheckedIterator.Decrement | include/utf8/unchecked.h:216-220 | lands where the checked iterator lands |
| StringUtils.Split | src/utils.cpp:13-30 | appends the non-empty stretches between delimiters found from the left, keeping what the vector held |
| StringUtils.Join | src/utils.cpp:32-42 | the words with the delimiter between them, nothing for no words |
| StringUtils.FindAndReplace | src/utils.cpp:64-73 | the in-place loop replaces the occurrences read from the left and never looks at what it wrote |
| StringUtils.ReplaceAllStep | src/utils.cpp:67-72 | reading from the left replaces the first occurrence and goes on behind it, and is the identity without one |
| StringLaws.FieldsAreClean | src/utils.cpp:13-30 | every field is non-empty and free of the delimiter |
| StringLaws.SplitAtDelimiter | src/utils.cpp:13-30 | splitting distributes over concatenation at a delimiter that does not overlap itself |
| StringLaws.SplitOfJoin | src/utils.cpp:13-42 | when the delimiter does not overlap itself, splitting joined words gives the words exactly when all are clean |
| StringLaws.SplitOfJoinIff | src/utils.cpp:13-42 | for every delimiter, splitting joined words gives the words exactly when they are clean and the delimiter begins too early behind none but the last |
| StringLaws.SplitDropsEmpty | src/utils.cpp:13-42 | joined words that may be empty come back without the empty ones |
| StringLaws.OverlapBreaksSplit | src/utils.cpp:13-42 | for every delimiter that overlaps itself there are clean words that splitting does not give back |
| StringLaws.JoinOfSplitIdempotent | src/utils.cpp:13-42 | joining after splitting is idempotent, for every delimiter |
| Utf8Replace.ReplaceEncoded | src/utils.cpp:64-73 | on encoded text, replacing octets is replacing code points |
| Utf8Replace.ReplaceDecoded | src/utils.cpp:64-73 | on well-formed text, pattern and replacement, replacing keeps the text well-formed and acts on code points |
| Detokenize.RestartStep | src/nmt.cpp:312-319 | one round of find-from-zero-and-replace does not change what a one-pass replacement gives |
| Detokenize.ReplaceFromFront | src/nmt.cpp:312-319 | the loop that restarts from zero ends, with the text a one-pass replacement gives |
| Detokenize.SpmDetokenizeStr | src/nmt.cpp:308-325 | the text without spaces, with marks turned to spaces, without one leading space |
| Detokenize.DetokenizedOnCodePoints | src/nmt.cpp:308-325 | well-formed text stays well-formed, and its code points are filtered, mapped and cut as described |
| Detokenize.SpmSegment | src/nmt.cpp:293-306 | the pieces joined with one space |
| Detokenize.UnescapeEscaped | src/nmt.cpp:316-319 | turning marks to spaces undoes turning spaces to marks, and also turns the text's own marks |
| Detokenize.DetokenizedPieces | src/nmt.cpp:293-325 | wherever the escaped text was cut, even inside a mark, joining and detokenising gives the text with its own marks turned to spaces |
| Detokenize.DetokenizeUndoesSegment | src/nmt.cpp:293-325 | the round trip is the identity exactly for texts without a mark |
| BpeMerge.MergePass | src/bpe.cpp:133-155 | the pass with find and iterator jumps replaces the leftmost non-overlapping occurrences of the pair |
| BpeMerge.MergedConcat | src/bpe.cpp:133-155 | a pass keeps the text the pieces spell |
| BpeMerge.MergedLength | src/bpe.cpp:133-155 | a pass shortens the word exactly when the pair stands in it, and is the identity otherwise |
| BpeMerge.AdjacentAfter | src/bpe.cpp:133-155 | a neighbourhood after the pass was there before and is not the pair, or the product took the place of the pair in one, on its right, on its left or on both sides |
| BpeMerge.NoneLeft | src/bpe.cpp:133-155 | no occurrence of the pair is left, also when its halves are equal |
| BpeMerge.MergedRun | src/bpe.cpp:133-155 | a run of n equal pieces becomes n / 2 products and, for odd n, one piece |
| BpeMerge.MergedAround | src/bpe.cpp:133-155 | around an occurrence of a pair with different halves the two sides are merged apart |
| BpeTable.TableInjective | src/bpe.cpp:38-47 | different pairs have different ranks |
| BpeTable.AllUsableIffDistinct | src/bpe.cpp:38-47 | every listed pair can be found by the search exactly when no line repeats a pair |
| BpeTable.RepeatedLineLeavesPair | src/bpe.cpp:95-115 | with a repeated line, the loop leaves the pair of the last line unmerged in the list of just its two pieces |
| BpeTable.ReducedStep | src/bpe.cpp:127-161 | every round of the merge loop strictly shortens the word and does not change what the loop ends with |
| BpeTable.ReducedMeaning | src/bpe.cpp:127-161 | the loop ends with pieces that spell the same text and hold no usable pair |
| BpeTable.ReducedIsNormalForm | src/bpe.cpp:127-161 | with distinct lines, no listed pair stands in the result |
| BpeOrder.StaysExhausted | src/bpe.cpp:133-159 | in a guarded table, merging a rule makes neither it nor an earlier rule apply again |
| BpeOrder.IncreasingIsFold | src/bpe.cpp:95-161 | whenever the loop picks increasing ranks, on any word and table, one pass per rule gives the same pieces |
| BpeOrder.GuardedPicks | src/bpe.cpp:95-161 | in a guarded table the loop picks strictly increasing ranks |
| BpeOrder.LoopIsFold | src/bpe.cpp:95-161 | when no rule uses its own product or a later one, the lowest-rank-first loop picks increasing ranks and agrees with one pass over all rules in rank order |
| BpeOrder.LaterFirstHalf | src/bpe.cpp:95-161 | a rule whose first half a later rule produces: the loop ends with one piece and the fold with two, on the word of the three parts, unless a rule before the later one takes them apart otherwise |
| BpeOrder.LaterSecondHalf | src/bpe.cpp:95-161 | the same for the second half |
| BpeOrder.LaterBothHalves | src/bpe.cpp:95-161 | the same for a rule that joins two products of the later rule |
| BpeOrder.AgreeIffGuarded | src/bpe.cpp:95-161 | for every table with distinct lines and non-empty fields: loop and fold agree on all words exactly when the table is guarded, and just then the loop picks increasing ranks on all words |
| BpeOrder.GuardedAgrees | src/bpe.cpp:95-161 | an instance: a table in which a rule uses what a later rule produces, and loop and fold agree all the same |
| BpeOrder.UnstratifiedDiffers | src/bpe.cpp:95-161 | the smallest table of this kind, with two rules |
| BpeWords.LettersSpell | src/bpe.cpp:201-215 | the letters of well-formed text are its characters and spell it |
| BpeWords.EncodingSpells | src/bpe.cpp:117-173 | for every table, the stripped pieces of an admissible word are non-empty and spell the word |
| BpeWords.TaggedPieces | src/bpe.cpp:171-173 | tagging keeps the number of pieces, puts the separator behind each but the last, and changes nothing else |
| BpeWords.StrippedPieces | src/bpe.cpp:163-169 | what the two strip steps do to the last pieces, in each case, for the octets of the marker |
| BpeWords.EncodedTokens | src/bpe.cpp:117-181 | the tokens of a well-formed word, one by one, and the exception of the decoder for any other |
| BpeWords.GlueTagged | src/bpe.cpp:19-33 | tagged pieces of which the last does not end in the separator are glued to one word |
| BpeWords.GlueEncoded | src/bpe.cpp:19-33 | an encoded admissible word, in front of any tokens, is glued back to the word |
| BpeEncoder.Bpe.FromLines | src/bpe.cpp:38-47 | the table holds each listed pair with the number of its last line |
| BpeEncoder.GetPairs | src/bpe.cpp:87-93 | exactly the pairs that stand side by side |
| BpeEncoder.Bpe.FindBestBigram | src/bpe.cpp:95-115 | the usable pair of least rank, and none exactly when there is no usable pair |
| BpeEncoder.Bpe.MergeAll | src/bpe.cpp:125-161 | the merge loop ends, with the normal form of its start |
| BpeEncoder.SplitWordIntoLetters | src/bpe.cpp:201-215 | the characters up to the first NUL, or the exception of the decoder |
| BpeEncoder.Bpe.Strip | src/bpe.cpp:163-169 | both strip steps, and that they always leave a piece to index |
| BpeEncoder.Bpe.TagAll | src/bpe.cpp:171-173 | the in-place loop puts the separator behind each piece but the last and keeps their number |
| BpeEncoder.Bpe.Encode | src/bpe.cpp:117-181 | the answer of an encoder without a cache; only this word's entry changes, and an exception changes nothing |
| BpeEncoder.Bpe.EncodeAll | src/bpe.cpp:183-194 | the encodings of the words in order, or the first exception; the cache stays coherent |
| BpeEncoder.EncodedAllWords | src/bpe.cpp:183-194 | several words are encoded when each is, word for word; otherwise the first that is not decides |
| BpeEncoder.Bpe.Preprocess | src/bpe.cpp:15-17 | the same as encoding the words |
| BpeEncoder.Bpe.Segment | src/bpe.cpp:52-65 | the encodings of the words of the sentence, one after the other, or the first exception |
| BpeEncoder.SegmentedWords | src/bpe.cpp:52-65 | a sentence is the tokens of its words, one word after the other |
| BpeEncoder.Bpe.Postprocess | src/bpe.cpp:19-33 | tokens are glued at separators, and a word that is never finished is dropped |
| BpeEncoder.Run | src/bpe.cpp:117-199 | over every run of calls each cached entry is right, and every answer is independent of the history |
| BpeRoundTrip.ReadIsWritable | src/bpe.cpp:38-47 | every merge file is read as a list of pairs of plain fields |
| BpeRoundTrip.WritableIsRead | src/bpe.cpp:38-47 | every list of pairs of plain fields is the reading of some merge file |
| BpeRoundTrip.SentenceRoundTrip | src/bpe.cpp:19-65 | for every table, gluing the segments of a sentence of admissible words gives exactly its words |
| BpeRoundTrip.EncodedUtf8 | src/bpe.cpp:117-181 | merging, stripping and tagging never cut a character: every token is well-formed UTF-8, for every table |
| BpeRoundTrip.EverythingMerges | src/bpe.cpp:127-161 | a table of all stretches of a word merges it to one piece |
| BpeRoundTrip.WholeWordToken | src/bpe.cpp:117-181 | for every plain word there is a merge file that makes it one token |
| BpeRoundTrip.RoundTripsMeaning | src/bpe.cpp:19-181 | a word survives a table exactly when its pieces spell it and the last of them does not end in the separator |
| BpeRoundTrip.UnmergedTokens | src/bpe.cpp:117-181 | with no rules, the tokens are the letters of the word, with the separator behind each but the last |
| BpeRoundTrip.SeparatorEndIsLost | src/bpe.cpp:19-33 | every word that ends in the separator is lost under some merge file, when a token can end in the separator |
| BpeRoundTrip.MarkerEndIsLost | src/bpe.cpp:163-169 | every word that ends in the marker loses it under three merge rules, because both strip steps apply |
| BpeRoundTrip.NulIsLost | src/bpe.cpp:201-204 | a word with a NUL behind its first octet survives no table |
| BpeRoundTrip.NoPieceEndsIn | src/bpe.cpp:127-169 | no piece of any word ends in a separator of several octets that holds a blank or a line feed |
| BpeRoundTrip.RoundTripIff | src/bpe.cpp:19-181 | a word `Encode` accepts survives every merge file exactly when it is well-formed, has no NUL, does not end in the marker, and does not end in a separator that some token can end in |
| BpeRoundTrip.RepeatedLineSplitsWord | src/bpe.cpp:95-115 | with a repeated line, the word of the two letters of the last line's pair stays two tokens, unless a rule takes the second letter into the marker |
| BpeRoundTrip.RepeatedLineWitness | src/bpe.cpp:95-115 | an instance: one line given twice, and the word of its two letters |
| NmtBatch.AddHypothesis | src/nmt.cpp:219-238 | one hypothesis extends or glues onto each output vector at its rank |
| NmtBatch.NMTTranslate | src/nmt.cpp:185-244 | every rank of a response is added to the four vectors; a failed connection changes nothing |
| NmtBatch.NMTTranslateBatch | src/nmt.cpp:246-259 | adds the responses up to the first failure, and says whether there was one |
| NmtBatch.FitsIff | src/nmt.cpp:229-234 | for one response, alignments are never written past the end of their vector exactly when, behind its old end, none follows a missing one |
| NmtBatch.BatchFitsIff | src/nmt.cpp:229-259 | for a batch, exactly when each missing alignment in front of another one is of a rank the vector had or an earlier sentence has |
| NmtBatch.MissingAlignmentOverflows | src/nmt.cpp:229-234 | every rendered response of two lines of which only the second has an alignment writes past the end |
| NmtBatch.BatchTransposes | src/nmt.cpp:214-259 | from an empty vector a batch computes the transpose, whatever the gluing |
| NmtBatch.OutputsTranspose | src/nmt.cpp:214-259 | texts, raw texts and scores are equally long, and entry r joins or sums rank r in sentence order |
| NmtBatch.AlignmentsTranspose | src/nmt.cpp:229-234 | so do the alignments of the hypotheses that have one, when each gap was filled by an earlier sentence |
| NmtBatch.LineIsRead | src/nmt.cpp:219-238 | from a rendered line the source reads the sentence, the optional alignment and the score |
| NmtBatch.LineSpelled | src/nmt.cpp:219-238 | the octets of a rendered line |
| NmtBatch.FieldsAreRead | src/nmt.cpp:219-238 | from a line of any number of fields: which of them are the sentence, the alignment and the score, and when there are enough |
| NmtBatch.LineIsReadIff | src/nmt.cpp:219-238 | a line whose fields hold no bar is read back exactly when none of them is empty |
| NmtBatch.EmptySentenceMisread | src/nmt.cpp:219-238 | with an empty sentence the alignment is read as the sentence, and without an alignment a field is missing |
| NmtBatch.ResponseIsRead | src/nmt.cpp:214-239 | from a rendered response it reads all hypotheses, in order |
| NmtBatch.RenderedBatchTransposes | src/nmt.cpp:214-259 | a batch of rendered n-best lists gives the transpose of the lists |
| PadBatch.Pad | src/nmt.cpp:387-403 | every row is filled up in place with empty strings to the length of the longest and no further, and the old lengths are returned |
| PadBatch.TokensTensor | src/nmt.cpp:445-511 | the tensor is the padded rows one after the other, with the old lengths, and its width is the greatest of them |
| PadBatch.ElementAt | src/nmt.cpp:474-478 | element (i, j) lies at i times the width plus j, and is empty beyond the old row |
| PadBatch.UnpadUndoesPad | src/nmt.cpp:387-511 | tensor, lengths and width determine the ragged batch |
| SentenceBatch.BatchSentences | src/rest_server.cpp:250-268 | the chunks are the sentences of the tokens, each joined with spaces, with nothing flushed at the end |
| SentenceBatch.SentencesConserve | src/rest_server.cpp:254-264 | the sentences one after the other are the tokens |
| SentenceBatch.SentencesEndAtTerminators | src/rest_server.cpp:256-263 | no sentence is empty, a terminator stands only at its end, and every sentence but the last has one there |
| SentenceBatch.SentenceEndsBehind | src/rest_server.cpp:259 | a sentence ends behind the first of the nine tokens, written out octet by octet, whatever follows |
| SentenceBatch.SentenceEndsNowhereElse | src/rest_server.cpp:259 | no sentence but the last ends behind any other token |
| SentenceBatch.ChunksConserve | src/rest_server.cpp:250-268 | splitting the chunks again gives the sentences, so no token is lost, doubled or moved |
| TextPipeline.EchoIff | src/rest_server.cpp:248-268 | cutting a text into sentences, detokenising each and joining them gives the text exactly when every sentence behind the first begins with a mark, wherever the pieces were cut |
| TextPipeline.TextThroughServer | src/nmt.cpp:185-325 | so it is with a server in between that answers each chunk with itself: one translation comes back, and it is the text exactly then |
| TextPipeline.SpaceBehindDot | src/rest_server.cpp:254-264 | where a dot has no space behind it, one is put there |
| TextPipeline.DotWithoutSpace | src/rest_server.cpp:254-264 | an instance: "a.b" comes back as "a. b" |

## Left out

- HTTP, gRPC, WebSocket, YAML and command-line code, logging and the routing of requests to models: input and output without a hard property.
- The SentencePiece model, the tokenisers of `src/tokenizer.cpp` and `src/spm.cpp`: wrappers over libraries; their pieces are parameters.
- BpeEncoder.Bpe.Encode: returns a value, while the source returns a reference through which a caller could change the cache.
- BpeEncoder.Bpe.Segment: has no test for an empty word, because a field is never empty (`StringLaws.FieldsAreClean`).
- The mutex in `Encode`: it is local to the call and protects nothing, so calls are modelled one after the other.
- BpeEncoder.Bpe.FromLines: takes the lines as a list; opening the file and `getline` are not modelled.
- Utf8Backward.Utf8Iterator: the postfix operators and the default constructor, which add nothing to the prefix ones.
- Utf8Unchecked.UncheckedIterator: the postfix operators, for the same reason.
- `advance`, `previous`, `is_bom`, `starts_with_bom`, `EscapeRegex` and `PrintSegment`: repetition of `next`, deprecated, or for display.
- Floating-point rounding of scores and the parsing of numbers: scores are reals, `atof` is a parameter.
- The casts of lengths and positions to `int`: lengths are unbounded.
- The reading of a tensor response and the character lists of `src/nmt.cpp`: they depend on the layout of an external model, and the lists are not used.
- `StringUtils.FindAndReplace` and `StringUtils.Split`: an empty pattern or delimiter, on which the source does not end.
- Utf8Backward.Utf8Iterator.Equals: compares the texts by their octets, while the source compares addresses, so iterators over two equal texts at different addresses compare here and throw there.
