# A verified model of the collocation extractor

The program reads a collection of documents, finds stable pairs and triples of lemmas, and writes
them with their scores, cases and document counts. It works on more data than fits in memory, so
it counts in chunks, sorts in parts and merges lazily. This project models that work in Dafny, from
the words of the raw documents to the filtered groups, and proves what the files hold at the end.

## What is proved

`Pipeline.Extract` is `main` of `src/extract.cpp`. Given documents with fewer than 2^32 accepted
words, all known to the lemmatizer, it ends without any of the run-time exceptions, and

* the corpus divides into exactly the documents with an accepted word, and its windows of any
  length are the consecutive accepted words of the raw documents (`RawSize`, `RawDocuments`);
* `bi.bin` and `tri.bin` are the ascending count tables of all pairs and of all admitted triples;
* `extended2.bin` and `extended3.bin` hold, strictly ascending, exactly the readings that occur and
  weigh more than the threshold, each with its score and with all its cases (`IsPairFile`,
  `IsTripleFile` in `CorpusFacts`);
* `bifreq.bin`, `trifreq.bin` and `lemfreq.bin` hold the true numbers of documents, all positive;
* the filtered files hold the groups over both thresholds, best score first;
* ids stand for different words and lemma ids for different terms, so all of this holds of the words
  of the raw documents and of the terms that the lemmatizer gives for them: counts of word n-grams,
  weights and scores of terms, cases, and documents (`FromDocuments` in `Pipeline`). `Occurrences`
  says the same without windows: every count is the number of places in the raw documents, or of
  documents, where the words or terms stand side by side.

`Agreement.RunsAgree` adds that documents per chunk, records per sorted part and the order in which
part files are listed do not show in these files, except in the order of the cases of a group and
of groups with equal scores.

The other main results are the merge iterator (`KMerge`: sorted, complete, one `++` per record,
even when the record on top is moved out first), the exact condition under which `Transformer`
drops output (`Streams.YieldIsFlatMap`), under which the lemma table survives saving
(`Lemmer.SavedIffNoneEmpty`) and under which merging conserves weight (`Tables.WeightConservedIff`),
the bounds between joint weights (`CorpusFacts.PairBounds`, `TripleBounds`), and conservation of
weight when homonyms share (`Conservation.WindowsAddUp` and its corollaries in `RunFacts`).

A pair of lemmas is in no more documents than its cases have occurrences
(`RunFacts.DocumentsHaveCases`). For triples this fails, because cases come from admitted windows only
and document counts from all (`Counterexamples.MoreDocumentsThanCases`). The windows left out make up
the difference (`RunFacts.TripleDocuments`), and there are none, and the triple keeps its whole weight,
if one of its pairs is selected (`RunFacts.TripleOfSelectedPair`, `CorpusFacts.TripleWeightIff`).
`Counterexamples` also has an input for each of the other conditions at which the property fails.

## How it is modelled

* Files are sequences; a reader is what it has not handed out yet. The classes of the source that
  change in place are classes here: `KMergeIterator`, `ExternalSorter`, `IFStreamer`,
  `Transformer`, `UnigramCounts`. `std::priority_queue` is a binary heap on a sequence. The loops
  of the stages are loops of methods, with the loop bodies and the lambdas of the source as methods
  of their own.
* Bigrams and trigrams (and unigrams, where they are counted) are tuples of ids, modelled as
  sequences of length two, three and one, so `Count`, `Ext` and `Group` stand for both message
  types and `extend_bigrams`/`extend_trigrams` and `group_lem2`/`group_lem3` share one model. The
  scores, the scans of phrases, the frequency stages and the filters are modelled one by one.
* Counters are 32 bits wide and wrap (`U32`). Weights and scores are exact reals.
* 40'000 documents per chunk, 80'000'000 and 20'000'000 records per sorted part, and the thresholds
  are parameters (`Settings`).
* Word breaking and lower-casing are the tokens of a document and the function `lower`; the
  lemmatizer is the function `terms` from a word to its terms; `glob` is any function that returns
  the part files in some order. Part directories start empty.
* `Transformer`'s callback is the function that gives what the callback appends to the queue.

Where code and documentation differ the model follows the code: the repository's `README.md` line 33 and
`colloc.hpp` line 100 give the score as (Wij - threshold)/(Wi*Wj); the code multiplies by the number
of lemmas L, and for triples by its square (`src/colloc.cpp` lines 419-420 and 650-652). The two agree
exactly if there is a single lemma (`Scores.DocumentedPairScore`, `DocumentedTripleScore`);
`Counterexamples.DocumentedScoreDiffers` has two.

## Files

`Wrappers`, `Orders`, `Bags`, `Products`: records, comparators, sums, products. `Heaps`, `KMerge`, `Streams`,
`ExternalSort`, `Runs`, `GroupBy`, `Tables`: `kmerge.hpp` and `streamer.hpp`. `Corpus`, `Convert`,
`Lemmatize`, `Lemmer`, `Counting`, `Grouping`, `DocFreq`, `FreqStat`, `Filters`: the stages of
`src/colloc.cpp`. `Scores`, `Weights`, `Meaning`, `DocFacts`, `Conservation`, `CorpusFacts`: what
their results mean. `Preparation`, `RawFacts`, `Pipeline`, `RunFacts`, `Occurrences`, `Agreement`,
`Counterexamples`: the stages together, down to the raw documents.
`dafny verify dfyconfig.toml` checks the project.

## Model

| member | source | states |
|---|---|---|
| `Orders.U32` | `colloc.hpp:20` | what a 32-bit counter keeps of a number: the number itself below 2^32 |
| `Orders.U32IsRemainder` | `colloc.hpp:20` | and in general the remainder modulo 2^32 |
| `Orders.GramMoreTransitive` | `compare.hpp:11-53` | the `>` of the id tuples is transitive |
| `Orders.GramMoreNegTransitive` | `compare.hpp:11-53` | incomparability of id tuples is transitive, as the sorts and the queue need |
| `Orders.GramMoreLinear` | `compare.hpp:18-37` | two records that neither comparator call puts first have equal keys, so `BigramEq`/`TrigramEq` and the `More` comparators split a sorted stream at the same places |
| `Orders.GramMoreOne` | `compare.hpp:11-53` | `>` of one id |
| `Orders.GramMoreTwo` | `compare.hpp:11-30` | `>` of pairs in numbers: the first ids decide, and the second where the first are equal |
| `Orders.GramMoreThree` | `compare.hpp:25-53` | the same for three ids |
| `Orders.ComparatorsAreOrders` | `compare.hpp:11-59` | every comparator is a strict weak order |
| `Orders.Sort` | `kmerge.hpp:145-148` | `std::sort`: sorted by the comparator, with the same records, for every strict weak order |
| `Heaps.Push` | `kmerge.hpp:54-64` | `emplace` keeps the heap order and adds one entry |
| `Heaps.Pop` | `kmerge.hpp:79-82` | `pop` leaves a heap without the old root even if the root record was moved out and only the entries below it are in order |
| `Heaps.RootIsFirst` | `kmerge.hpp:47-54` | the root comes out no later than any queued entry |
| `KMerge.Refill` | `kmerge.hpp:59-64` | when the unrepresented reader hands over its next record, every reader with records left is represented exactly once again |
| `KMerge.Remove` | `kmerge.hpp:79-82` | taking an entry off leaves exactly its own reader unrepresented |
| `KMerge.RootIsNext` | `kmerge.hpp:76-77` | the root comes out no later than anything queued or still unread in any reader |
| `KMerge.NothingPending` | `kmerge.hpp:87` | with an empty queue every reader is exhausted |
| `KMerge.HuskedHeap` | `kmerge.hpp:76-82` | overwriting the root record leaves what `pop` needs |
| `KMerge.EmitNext` | `kmerge.hpp:79-90` | one step keeps what came out sorted, ahead of what is left, and complete together with it, and lowers what is left by one |
| `KMerge.KMergeIterator.constructor` | `kmerge.hpp:71-74` | over sorted readers the iterator starts with nothing emitted and the readers' records as its input |
| `KMerge.KMergeIterator.InitQueue` | `kmerge.hpp:59-68` | one record of every non-empty reader is queued, nothing is lost, and the result tells whether the queue is empty |
| `KMerge.KMergeIterator.Feed` | `kmerge.hpp:81-85` | the next record of one reader, if any, goes to the queue; queued and unread records together stay the same |
| `KMerge.KMergeIterator.Current` | `kmerge.hpp:76-77` | `operator*` gives the next record to come out |
| `KMerge.KMergeIterator.MoveOut` | `kmerge.hpp:210-216` | moving the record out of the queue disturbs neither validity nor the number of steps left |
| `KMerge.KMergeIterator.Replace` | `kmerge.hpp:80-85` | the root goes, its reader feeds the queue, and exactly the root record is gone, even if it had been moved out |
| `KMerge.KMergeIterator.Refresh` | `kmerge.hpp:87` | `good` says whether the queue is non-empty, and running `init_queue` again finds nothing |
| `KMerge.KMergeIterator.Next` | `kmerge.hpp:79-90` | `++` emits the record under the iterator and uses up one of the remaining steps |
| `KMerge.KMergeIterator.Exhausted` | `kmerge.hpp:92-94` | when the sentinel is reached, what came out is a sorted permutation of all records |
| `Streams.IFStreamer.Read` | `streamer.hpp:67` | reading hands out the records of a file one by one and fails exactly at its end |
| `Streams.Transformer.constructor` | `streamer.hpp:149-155` | before the first read everything that a consumer will get lies ahead |
| `Streams.Transformer.Read` | `streamer.hpp:157-172` | each read hands out the next of what lies ahead, through the queue and the `keep` flag; after a failing read at an input without outputs the next one resumes with the next input |
| `Streams.YieldIsFlatMap` | `streamer.hpp:157-172` | a consumer that stops at the first failing read gets the whole flat-map if and only if no input with outputs comes after one without |
| `Streams.YieldStops` | `streamer.hpp:157-172` | what the consumer gets is the flat-map of the inputs before the first one without outputs, and nothing of what follows |
| `Streams.FlatMapSnoc` | `streamer.hpp:157-172` | outputs come in the order of their inputs |
| `ExternalSort.ReversedOrder` | `kmerge.hpp:146-148` | the comparator with its arguments swapped is a strict weak order too |
| `ExternalSort.ExternalSorter.SortSave` | `kmerge.hpp:145-155` | one more part after those before, sorted the way the merging queue expects, with the records of the buffer |
| `ExternalSort.ExternalSorter.Put` | `kmerge.hpp:176-184` | as long as the buffer stays below the bound the record joins it and no part is written; at the bound exactly one part of that many records is written and the buffer is empty; 0 means no bound |
| `ExternalSort.ExternalSorter.SortUnstable` | `kmerge.hpp:170-198` | sorted parts with exactly the records of the file, for every bound, each part with the records of its stretch of the file (`CutUp`) |
| `ExternalSort.CutSizes` | `kmerge.hpp:176-190` | every part but the last has exactly as many records as the bound, so their number is the quotient rounded up; without a bound there is one part, or none for an empty file |
| `ExternalSort.ExternalSorter.SortTransformed` | `kmerge.hpp:170-198` | the same for what a transformed stream yields |
| `ExternalSort.SortFile` | `src/tests.cpp:63-72` | sorting in parts and then iterating gives a sorted permutation of the file, for every bound |
| `ExternalSort.SortedPlaces` | `src/tests.cpp:61-72` | two sorted permutations of each other are equivalent place by place, so the bound shows in the order of ties only |
| `ExternalSort.SortedKeys` | `src/tests.cpp:61-72` | for bigrams and trigrams the keys come in the order `std::sort` gives |
| `Runs.NewKeyIsGreater` | `kmerge.hpp:212-217` | in a sorted stream a key that differs from the one before it exceeds all earlier keys |
| `Runs.RunKeysAscend` | `kmerge.hpp:207-222` | each key of a sorted stream has one run, and runs come in strictly ascending order |
| `Runs.StepGrouped` | `kmerge.hpp:207-219` | what one more record does to the finished runs and to the current one |
| `GroupBy.TakeRecord` | `kmerge.hpp:207-219` | the loop body, which moves records out of the queue, keeps the finished totals written and the current total in `prev` |
| `GroupBy.GroupBySave` | `kmerge.hpp:201-223` | the file holds the totals of the runs of what the merger emitted |
| `GroupBy.TotalsAreTotals` | `kmerge.hpp:201-223` | these totals list each key once, strictly ascending, with the sum of its weights modulo 2^32 |
| `GroupBy.MergeFiles` | `kmerge.hpp:225-246` | merging sorted files, which may repeat keys, gives the totals of all their records together |
| `Tables.TotalsPermute` | `kmerge.hpp:225-230` | the totals do not depend on the order of the records or files |
| `Tables.WeightConservedIff` | `kmerge.hpp:212-213` | merging conserves the weight of every key if and only if no total reaches 2^32 |
| `Tables.MergedChunks` | `src/colloc.cpp:347-348` | merging the count tables of chunks gives the count table of everything, wrap-around included |
| `Tables.CountTableUnique` | `src/colloc.cpp:316-349` | a bag of n-grams has one ascending table of counts, so cutting it up differently changes nothing |
| `Corpus.Accept` | `src/colloc.cpp:39-61` | a word is accepted exactly if it is not punctuation, at most 50 long and within 1024..1105 |
| `Corpus.RunsAreMaximal` | `src/colloc.cpp:80-100` | for every n, the windows of a document's runs are its n consecutive accepted words, in order, none twice and none missing |
| `Corpus.EncodingRoundTrip` | `src/colloc.cpp:67-105` | splitting the written stream at empty phrases gives back the documents with an accepted word, each as its runs, and nothing is left open |
| `Corpus.EncodedWindows` | `src/colloc.cpp:67-105` | the windows of the stream are the windows of the raw documents |
| `Convert.UnigramCounts.constructor` | `src/colloc.cpp:25-36` | the stream and the table start empty and consistent |
| `Convert.UnigramCounts.UpdateWord` | `src/colloc.cpp:38-65` | a rejected word changes nothing; an accepted one is counted once and gets the number that stands for it |
| `Convert.UnigramCounts.CountWord` | `src/colloc.cpp:61-64` | `try_emplace` with the next number, and one more occurrence |
| `Convert.WordsInOrder` | `src/colloc.cpp:61-64` | a word that comes up for the first time has a greater id than all words before it |
| `Convert.UnigramCounts.WritePhrase` | `src/colloc.cpp:70-78` | the phrase that is written spells the current run |
| `Convert.UnigramCounts.UpdateToken` | `src/colloc.cpp:81-94` | one word of a document, against the reference scan of the document |
| `Convert.UnigramCounts.Update` | `src/colloc.cpp:67-105` | the stream grows by the encoding of the document, and the result is whether it has an accepted word |
| `Convert.SaveUni` | `src/colloc.cpp:155-164` | every word of the table is listed once with its id and weight |
| `Convert.ConvertDocuments` | `src/colloc.cpp:107-149` | the stream spells the encoding of all documents, and the total is the number of documents closed in it |
| `Convert.TokensAreWindows` | `src/colloc.cpp:92-93` | windows of one word are the words of the stream |
| `Convert.IdsDistinct` | `src/colloc.cpp:61-64` | different words have different ids |
| `Convert.NamesDistinct` | `src/colloc.cpp:61-64` | no two ids stand for the same word |
| `Convert.UnigramsTabulate` | `src/colloc.cpp:61-64` | uni.bin lists every id of the corpus once, with its number of occurrences |
| `Lemmatize.AddTerms` | `src/colloc.cpp:240-247` | known terms keep their ids; new ones get the next numbers, in the order in which they first come in the word's terms |
| `Lemmatize.AddTerm` | `src/colloc.cpp:243-246` | `try_emplace`: a known term keeps its number, a new one gets the next |
| `Lemmatize.TermsInOrder` | `src/colloc.cpp:243-246` | over all words, a term that comes up for the first time has a greater id than all terms before it |
| `Bags.FirstsInOrder` | `src/colloc.cpp:243-246` | the names listed by id are those that come up, each after all that come up before it |
| `Lemmatize.TermsDistinct` | `src/colloc.cpp:243-246` | no two lemma ids stand for the same term |
| `Lemmatize.LemmatizeWords` | `src/colloc.cpp:222-270` | each word's lemmas stand at the place of its id, every number handed out is the lemma of some word, and terms are numbered as they come up in uni.bin |
| `Lemmatize.SaveLemIds` | `src/colloc.cpp:198-207` | lemid.bin lists every term once with its id |
| `Lemmatize.NoneEmpty` | `src/colloc.cpp:222-270` | if the lemmatizer knows every word, no entry of the table is empty |
| `Lemmer.SaveLems` | `src/colloc.cpp:209-219` | lems.bin has exactly the non-empty entries of the table, each as often as there and in their order |
| `Lemmer.LoadLems` | `src/colloc.cpp:277-288` | loading gives back what was saved |
| `Lemmer.SavedIffNoneEmpty` | `src/colloc.cpp:209-219` | the table survives saving and loading if and only if no entry is empty |
| `Preparation.WindowsSpelled` | `src/colloc.cpp:67-105` | windows of ids spell windows of words, one by one |
| `Preparation.DivisionSpelled` | `src/colloc.cpp:67-105` | dividing ids into documents and dividing words into documents agree |
| `Preparation.LemmasListed` | `src/colloc.cpp:198-207` | every lemma of the table is in lemid.bin |
| `Preparation.LemmaOccurs` | `src/colloc.cpp:222-270` | every lemma of the table occurs in the corpus |
| `Preparation.Prepare` | `src/colloc.cpp:107-271` | after `convert` and `lemmatize` no entry is empty, every lemma is listed and occurs, word counts are exact, no document is open, ids of words and of lemmas stand for different words and different terms and are given out as these come up, uni.bin and lemid.bin list each under its id, and the table is that of the lemmatizer |
| `RawFacts.SpelledCopies` | `src/colloc.cpp:67-105` | an n-gram of ids occurs as often as the words it stands for |
| `RawFacts.TableOfWords` | `src/colloc.cpp:316-349` | each entry of uni.bin, bi.bin or tri.bin has the number of occurrences of its words in the raw documents, and all that occur are there |
| `RawFacts.WeightOfTerms` | `src/colloc.cpp:379-446` | the joint weight of lemma ids is the sum, over the raw word n-grams, of the shares computed from the lemmatizer's terms |
| `RawFacts.PairShare` | `src/colloc.cpp:439-442` | the share of a pair of terms in two words is the product of how often each is among the terms of its word, over the number of these |
| `RawFacts.FrequencyOfTerms` | `src/colloc.cpp:464-492` | the document count of lemma ids is the number of raw documents with adjacent words that have these terms |
| `RawFacts.AdmitSpelled` | `src/colloc.cpp:568-585` | the admitted windows of ids stand for the word triples one of whose pairs reads as a selected pair of terms |
| `RawFacts.PairFileOfTerms` | `src/colloc.cpp:396-450` | extended2.bin without ids: which pairs of terms, with which score and with which word pairs and counts as cases |
| `RawFacts.TripleFileOfTerms` | `src/colloc.cpp:626-686` | extended3.bin likewise, over the admitted word triples |
| `Counting.SaveCounts` | `src/colloc.cpp:166-192` | `sort_map` and `save_bi`/`save_tri` list every entry of the map once, strictly ascending, and clear the map |
| `Counting.CountPairs` | `src/colloc.cpp:340-343` | each pair of adjacent words of a phrase is counted once |
| `Counting.EndDocument` | `src/colloc.cpp:330-338` | after every `chunkDocs` documents, and only then, the map becomes one more part and is cleared; parts and map together still cover all phrases |
| `Counting.MergeParts` | `src/colloc.cpp:347-348` | parts listed in any order merge into the count table of everything |
| `Counting.BigramStat` | `src/colloc.cpp:316-349` | bi.bin is the ascending count table of all pairs of adjacent words, for every chunk size and order of parts, ordered by the first ids and then by the second; a part is saved for every `chunkDocs` documents and one at the end |
| `Counting.ChunksAreQuotient` | `src/colloc.cpp:330-347` | the number of part files is the number of documents divided by that of a chunk, and one more, for fewer than 2^32 documents |
| `Counting.AdmitCounts` | `src/colloc.cpp:568-585` | a triple is admitted with all its occurrences or with none |
| `Counting.AdmitWindow` | `src/colloc.cpp:568-585` | a window is admitted if its first or its second pair is kept |
| `Counting.SeenStep` | `src/colloc.cpp:568-585` | at each pair the `found` flag makes the scan count exactly the windows not counted before |
| `Counting.CountAround` | `src/colloc.cpp:575-583` | what the scan counts around one kept pair |
| `Counting.CountTriples` | `src/colloc.cpp:568-585` | the scan of a phrase counts every admitted window exactly once and no other |
| `Counting.TrigramStat` | `src/colloc.cpp:543-591` | tri.bin is the full count table of all triples, restricted to the admitted ones, ordered by the first, second and third ids, with part files as for pairs |
| `Lemmer.ProductSize` | `src/colloc.cpp:355-368` | a word n-gram has as many readings as the product of its words' numbers of lemmas |
| `Lemmer.ProductShare` | `src/colloc.cpp:355-368` | a reading comes up in the lemma product as often as its share of the n-gram says |
| `Lemmer.CarriesIffShare` | `src/colloc.cpp:379-394` | a reading has a positive share exactly if each of its lemmas is a lemma of its word |
| `Lemmer.ShareOfPart` | `src/colloc.cpp:439-442` | the share of a reading is at most the share of any part of it |
| `Grouping.ExtendGrams` | `src/colloc.cpp:351-377` | sorted parts with exactly what the transformer yields |
| `Grouping.ExtendYieldsAll` | `src/colloc.cpp:593-624` | if every word has a lemma the transformer drops nothing: all readings of all n-grams |
| `Grouping.AddLemmas` | `src/colloc.cpp:387-390` | each occurrence of a lemma in a word's list gets the word's share |
| `Grouping.BuildLemWeights` | `src/colloc.cpp:379-394` | the map has exactly the lemmas of listed words, each with the sum of its shares |
| `Grouping.TakeExt` | `src/colloc.cpp:430-446` | the loop body: a change of lemmas writes the group, the record becomes a case of the current one |
| `Grouping.GroupLem` | `src/colloc.cpp:407-450` | one group per run of the merged records, where the score is positive |
| `Meaning.RunIsJoint` | `src/colloc.cpp:439-442` | the weight summed up over a run is the joint weight of the reading over the count table |
| `Meaning.RunCases` | `src/colloc.cpp:434-437` | the cases of a run are the table entries, each as often as it has the reading |
| `Meaning.ReadingIsKey` | `src/colloc.cpp:430-433` | there is a run for a reading exactly if some entry of the table has it |
| `Meaning.MakeGroups` | `src/colloc.cpp:626-686` | the file has the groups of exactly the readings with a positive score, strictly ascending, with their scores and cases |
| `Scores.Score2Value` | `src/colloc.cpp:416-425` | a pair is written exactly if its weight exceeds the threshold, with score L(Wij-t)/(WiWj) |
| `Scores.Score3Value` | `src/colloc.cpp:647-657` | a triple is written exactly if its weight exceeds the threshold, with score L^2(Wijk-t)/(WiWjWk) |
| `Scores.PairScoreIff` | `src/colloc.cpp:419-420` | the score in the files is L(Wij-t)/(WiWj) with a real division |
| `Scores.TripleScoreIff` | `src/colloc.cpp:650-652` | and L^2(Wijk-t)/(WiWjWk) |
| `Scores.DocumentedPairScore` | `README.md:33` | the written score is L times the documented one, so they agree if and only if there is a single lemma |
| `Scores.DocumentedTripleScore` | `README.md:33` | for triples too they agree if and only if there is a single lemma |
| `Weights.SmallIsExact` | `colloc.hpp:20` | with fewer than 2^32 windows no counter wraps |
| `Weights.TableSum` | `src/colloc.cpp:430-446` | summing over a count table is summing over the windows that were counted |
| `Weights.JointOfTable` | `src/colloc.cpp:439-442` | the joint weight over a count table is the joint weight over the corpus |
| `Weights.JointAtMostPart` | `src/colloc.cpp:67-105` | a reading weighs no more than any part of it, since a word starts or ends at most one window |
| `Conservation.SharesAddUp` | `src/colloc.cpp:439-442` | the shares of one n-gram among its readings add up to one |
| `Conservation.JointWeightsAddUp` | `src/colloc.cpp:351-394` | the joint weights of all readings add up to the sum of the counts, for words, pairs and triples |
| `Conservation.WindowsAddUp` | `src/colloc.cpp:593-615` | and so to the number of windows |
| `CorpusFacts.LemmaWeights` | `src/colloc.cpp:379-394` | `lid_w` holds exactly the lemmas that occur in the corpus with their weights there |
| `CorpusFacts.LookupsHit` | `src/colloc.cpp:413-414` | the unchecked look-ups of `write_one` find every lemma, with a positive weight |
| `CorpusFacts.PairFileMeant` | `src/colloc.cpp:396-450` | extended2.bin over the corpus: which pairs, in which order, with which score and cases |
| `CorpusFacts.TripleFileMeant` | `src/colloc.cpp:626-686` | extended3.bin over the corpus and the kept pairs of words |
| `CorpusFacts.PairFileAscends` | `compare.hpp:40-45` | the pairs in extended2.bin come in the order of their first ids, then of their second |
| `CorpusFacts.TripleFileAscends` | `compare.hpp:47-53` | the triples in extended3.bin likewise |
| `CorpusFacts.CasesExpected` | `src/colloc.cpp:434-437` | the cases are the adjacent words with that reading and their corpus counts, exactly if they are those of the table |
| `CorpusFacts.CaseIsCarrier` | `src/colloc.cpp:434-437` | an n-gram is among the cases exactly if it occurs and has the reading |
| `CorpusFacts.AdmittedSum` | `src/colloc.cpp:568-585` | admitting only some triples can only lower a sum over them, and lowers it unless all that count are admitted |
| `CorpusFacts.PairBounds` | `src/colloc.cpp:419-420` | with t >= 0 a written pair has t < Wij <= Wi and Wj, and its score times either is at most L |
| `CorpusFacts.TripleBounds` | `src/colloc.cpp:650-652` | a triple weighs no more than its two pairs and its three lemmas |
| `CorpusFacts.TripleFileBounds` | `src/colloc.cpp:650-652` | with t >= 0 a written triple has t < Wijk, each lemma weighs more than t, and its score times the weights of any two lemmas is at most L^2 |
| `CorpusFacts.TripleWeightIff` | `src/colloc.cpp:568-585` | a triple keeps its whole corpus weight if and only if none of the windows that carry it is left out |
| `CorpusFacts.TripleCarriersIff` | `src/colloc.cpp:568-585` | the same for its number of windows |
| `CorpusFacts.SelectedPairAdmits` | `src/colloc.cpp:531-540` | if its first or second pair is selected, none of its windows is left out |
| `DocFreq.IncrementAll` | `colloc.hpp:59-67` | every member of the document's set is raised by one, nothing else changes, and the set is cleared |
| `DocFreq.ScanPairs` | `src/colloc.cpp:477-490` | the sets gain exactly the lemmas and the wanted pairs that the phrase has |
| `DocFreq.ScanTriples` | `src/colloc.cpp:714-726` | the set gains exactly the wanted triples that the phrase has |
| `DocFreq.ZeroCounts` | `src/colloc.cpp:688-696` | every group starts at zero |
| `DocFreq.CountPairDocs` | `src/colloc.cpp:464-492` | pairs and lemmas are counted once per document that has them |
| `DocFreq.CountTripleDocs` | `src/colloc.cpp:703-728` | so are triples |
| `DocFacts.FrequencyAtMostPart` | `src/colloc.cpp:464-492` | a reading is in no more documents than any part of it |
| `DocFacts.FrequencyAtMostCarriers` | `src/colloc.cpp:464-492` | nor in more documents than it has windows |
| `DocFacts.FrequencyFits` | `src/colloc.cpp:464-492` | with closed documents and fewer than 2^32 windows the count is exact and zero only for what does not occur |
| `DocFacts.FrequencyAtMostCases` | `src/colloc.cpp:464-492` | a reading is in no more documents than its cases have occurrences |
| `FreqStat.SizesAgree` | `src/colloc.cpp:290-294` | the size check passes if and only if every listed lemma is in a document |
| `FreqStat.BiFreqStat` | `src/colloc.cpp:452-502` | each exception is thrown exactly under the stated condition; otherwise both files hold the document counts in 32 bits |
| `FreqStat.TriFreqStat` | `src/colloc.cpp:698-738` | the same for triples |
| `Filters.MergeUniFreq` | `src/colloc.cpp:290-310` | the exception on a size mismatch, else every lemma with its count |
| `Filters.LoadCounts` | `src/colloc.cpp:506-510` | the map has the keys and the counts of the file |
| `Filters.FilterBilems` | `src/colloc.cpp:512-525` | sort first, then filter: exactly the groups in more documents than th1 and with a score above th2, as often as before, and no score below a later one |
| `Filters.FilterTrilems` | `src/colloc.cpp:747-761` | filter first, then sort: the same groups in the same order of scores |
| `Filters.FiltersAgree` | `src/colloc.cpp:505-525` | both ways agree but for the order of equal scores |
| `Filters.PassingPermutes` | `src/colloc.cpp:519-524` | which groups pass does not depend on their order |
| `Filters.LoadFilteredBigrams` | `src/colloc.cpp:531-540` | the set has exactly the word pairs of the cases |
| `Pipeline.LemmaCount` | `src/colloc.cpp:419` | L, the size of `lid_w`, is the number of lemmas listed |
| `Pipeline.GroupPairs` | `src/colloc.cpp:396-450` | `group_lem2` on files of the stages before it, with the order of the ids in numbers |
| `Pipeline.GroupTriples` | `src/colloc.cpp:626-686` | `group_lem3` on files of the stages before it, with the order of the ids in numbers |
| `Pipeline.NoZeroCount` | `src/colloc.cpp:494-498` | "doc count is zero" cannot be thrown for groups that occur in the corpus |
| `Pipeline.EveryLemmaSeen` | `src/colloc.cpp:292-294` | every listed lemma is in some document, so "uni size does't match lemid size" cannot be thrown |
| `Pipeline.PairFrequencies` | `src/colloc.cpp:452-502` | `bifreq_stat` ends normally with the true, positive numbers of documents |
| `Pipeline.TripleFrequencies` | `src/colloc.cpp:698-738` | so does `trifreq_stat` |
| `Pipeline.FrequencyOf` | `src/colloc.cpp:520-521` | the unchecked `freqs.find` of the filters always hits |
| `Pipeline.SelectPairs` | `src/colloc.cpp:505-525` | `filter_bilems` keeps exactly the pairs in more than th1 documents with a score above th2, and scores do not rise |
| `Pipeline.SelectTriples` | `src/colloc.cpp:740-762` | `filter_trilems` does the same for triples |
| `Pipeline.KeptPairs` | `src/colloc.cpp:531-540` | the kept pairs of words are those adjacent somewhere that read as a selected pair of lemmas |
| `Pipeline.PairStages` | `src/extract.cpp:23-26` | all files up to bifiltered.bin in terms of the corpus |
| `Pipeline.TripleStages` | `src/extract.cpp:28-31` | all files from tri.bin on in terms of the corpus and the kept pairs |
| `Pipeline.FilesFromDocuments` | `src/extract.cpp:20-31` | what the files say of ids they say of the words of the raw documents and of their terms: counts, weights, scores, cases and document counts |
| `Pipeline.Extract` | `src/extract.cpp:20-31` | end to end from raw documents: every file exact, no exception, ids for different words and terms, and every count, weight, score and frequency equal to its value over the raw documents |
| `Occurrences.PlacesCounted` | `src/colloc.cpp:67-105` | words stand side by side in the raw windows as often as there are places in the documents where they do |
| `Occurrences.DocumentsCounted` | `src/colloc.cpp:464-492` | terms are in as many divided documents as raw documents |
| `Occurrences.WordCounts` | `src/colloc.cpp:61-64` | a weight in uni.bin is the number of places (document and position) at which the word stands |
| `Occurrences.PairCounts` | `src/colloc.cpp:316-349` | a weight in bi.bin is the number of places at which the two words stand side by side |
| `Occurrences.TripleCounts` | `src/colloc.cpp:543-591` | a triple in tri.bin has a kept pair, and its weight is the number of places at which the three words stand side by side |
| `Occurrences.AdmittedExactly` | `src/colloc.cpp:543-591` | the tri.bin of every run is such a table |
| `Occurrences.TermDocuments` | `src/colloc.cpp:464-492` | a count in lemfreq.bin is the number of documents with a word that has the term |
| `Occurrences.PairDocuments` | `src/colloc.cpp:464-492` | a count in bifreq.bin is the number of documents in which two words side by side have the two terms |
| `Occurrences.TripleDocuments` | `src/colloc.cpp:703-728` | a count in trifreq.bin likewise for three |
| `Occurrences.DocumentsWithWords` | `src/colloc.cpp:67-105` | total_count.txt is the number of documents with an accepted word |
| `RunFacts.PairTablesAscend` | `src/colloc.cpp:316-349` | bi.bin and bifreq.bin are ordered by the first ids, then by the second |
| `RunFacts.TripleTablesAscend` | `src/colloc.cpp:543-591` | tri.bin and trifreq.bin likewise by three |
| `RunFacts.BestFirst` | `src/colloc.cpp:505-525` | both filtered files have exactly the groups over both thresholds, and scores do not rise |
| `RunFacts.PairInFewerDocuments` | `src/colloc.cpp:464-492` | bifreq of a pair is at most lemfreq of either lemma |
| `RunFacts.TripleInFewerDocuments` | `src/colloc.cpp:703-728` | trifreq of a triple is at most bifreq of a pair in it |
| `RunFacts.DocumentsHaveCases` | `src/colloc.cpp:452-500` | bifreq of a pair is at most the sum of the counts of its cases |
| `RunFacts.TripleDocuments` | `src/colloc.cpp:698-738` | trifreq of a triple is at most the counts of its cases plus the number of its windows left out |
| `RunFacts.TripleOfSelectedPair` | `src/colloc.cpp:568-585` | if one of its pairs is selected, a triple has its whole corpus weight and is in no more documents than its cases have occurrences |
| `RunFacts.LemmaWeightsAddUp` | `src/colloc.cpp:379-394` | the weights of all lemmas add up to the number of words of the corpus |
| `RunFacts.PairWeightsAddUp` | `src/colloc.cpp:351-377` | the weights of all pairs, before the threshold, add up to the number of adjacent words |
| `RunFacts.TripleWeightsAddUp` | `src/colloc.cpp:593-624` | the weights of all triples, before the threshold, add up to the number of admitted windows |
| `Agreement.PairFilesAgree` | `src/colloc.cpp:396-450` | corpus, lemma table and threshold determine extended2.bin but for the order of cases |
| `Agreement.TripleFilesAgree` | `src/colloc.cpp:626-686` | with the kept pairs they determine extended3.bin |
| `Agreement.FilesSelectedAgree` | `src/colloc.cpp:505-525` | filtering equal groups gives the same groups but for the order of cases, and place by place the same score |
| `Agreement.RunsAgree` | `src/extract.cpp:20-31` | runs that differ in chunk sizes, part sizes or file order write the same counts, groups, frequencies, kept pairs and filtered files, but for the order of cases and of groups with equal scores |
| `Counterexamples.YieldStopsEarly` | `streamer.hpp:157-172` | an input without outputs before one with outputs, where a consumer gets less than the flat-map |
| `Counterexamples.SavingShifts` | `src/colloc.cpp:209-219` | a table with an empty entry, where a word gets the lemmas of the next word after loading |
| `Counterexamples.TotalWraps` | `kmerge.hpp:212-213` | two files in which a pair occurs 2^32 times, and the merged total is 0 |
| `Counterexamples.DocumentedScoreDiffers` | `README.md:33` | a corpus with two lemmas, where the written score is 2 and the documented one 1 |
| `Counterexamples.MoreDocumentsThanCases` | `src/colloc.cpp:698-738` | whenever the stages run over three given documents, a triple is written with trifreq 3 and a single case that occurs once |
| `Counterexamples.RunExample` | `src/extract.cpp:23-31` | the stages from `bigram_stat` on do run over such files of `convert` and `lemmatize`, and write this triple |

## Left out

- Disk access, message headers, protobuf and Cap'n Proto encoding and the errors they raise: a file is the sequence of its messages.
- Word breaking, code pages, lower-casing and lemmatization themselves: library code that is not part of this model.
- Empty raw documents: `convert` skips the rest of an archive when it meets one (`src/colloc.cpp` lines 119-120); the model starts from the documents that are read.
- Batches of 10'000 words in `lemmatize`: the model gives the lemmatizer one word at a time, so it does not show what happens if a batch comes back with another number of words.
- `lems.at` beyond the table: the source throws, the model takes such a word to have no lemmas. It happens only when saving dropped empty entries, and `Pipeline.Extract` shows that it does not happen when every word has lemmas.
- Part directories with files from an earlier run: they are taken to start empty.
- Floating-point rounding of weights and scores: they are exact reals.
- Widths other than those of counters: ids, the number of chunks and the number of documents are not bounded, and `docid` affects nothing but the cutting into chunks.
- The order of equal keys in `std::sort`, in the queue and in hash maps: contracts leave it open.
- The exact moves of `std::push_heap` and `std::pop_heap`: the model sifts up and down in the textbook way, with the same heap order.
- Values of moved-from records: `MoveOut` leaves whatever the caller supplies, as a swap does.
- Progress output, `to_zmap`, `gramcat`, `read_total` and `convert.pl`: display and output formats.
