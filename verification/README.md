# A trigram code search, verified in Dafny

The programs modelled here find the files that match a regular expression without reading all of them. A regexp is
turned into a Boolean query over trigrams (`index/regexp.go`); the query is evaluated on an index that lists, for each
trigram, the files that contain it (`index/write.go`, `index/read.go`, `index/merge.go`); the files that remain are
searched line by line with an automaton built on demand (`regexp/match.go`, `regexp/utf.go`). A second index keeps the
lists as bitmaps (`index2`), and a server keeps track of repositories and index shards in a manifest that any number of
clients change at once (`repo/repo.go`, `cmd/cindex-serve/main.go`).

The claim that ties the first part together is `EndToEnd.IndexAndSearch`: every indexed file that contains a match is
found. It rests on

- the soundness of the query: an abstract interpretation of regexps by exact, prefix and suffix sets
  (`RegexpSyntax`, `RegexpAnalysis`, `RegexpLoops`, `RegexpSoundness`, `RegexpTheorems`), over a Boolean simplifier
  that is proved exact (`Queries`) and sets of strings (`StringSets`). From the other side,
  `RegexpPrecision` says for every step of the analysis exactly which trigram sets satisfy the query, `RegexpSeams` what
  that means for repeated words, and `RegexpLanguages` what the languages are;
- the exactness of the index: scanning (`TextScan`, `SparseSets`), radix sort and heap merge (`PostEntries`,
  `PostHeaps`, `PostMerge`, `IndexWriter`), the file format and its readers (`Bytes`, `Varints`, `IndexFormat`,
  `IndexReader`), lists and queries (`Postings`, `QueryEvaluation`). `TextAcceptance` says which texts are indexed, all
  well-formed UTF-8 within the limits among them, and `IndexLayout` what the file is byte by byte;
- and it survives merging: `MergeMaps`, `MergePostings` and `Merge` show that a merged index is an index of the files
  that remain, and `EndToEnd.MergeAndSearch` that searching it finds what it should.

The matcher is proved against paths through the program: `Programs` has the paths and the sets of instructions,
`Queues` the expansion of queues, `StateCodes` the strings that name states, `Matchers` the cache and the search.
`RuneRanges` says what ranges of runes are as bytes, `RuneBuilder` compiles them, and `BytePrograms` compiles whole
programs; `TextSearch.SearchTexts` puts compiler and matcher together. `ShardIndex` builds the second index and
`ShardQueries` reads it; `EndToEnd.ShardCandidates` is the search of a shard. `Manifests` has manifests and their
transactions as values, `ManifestStore` the code that changes them in place, and `ManifestProtocol` all interleavings.

How the models are built:

- Code that works in place is a class or a method over arrays; its contract equates the new state with a function or a
  predicate of the old one, and lemmas say what that function promises.
- An index file is a byte string. `Represents(ix, v)` says that an opened file holds the view `v`: its paths, names and
  posting lists. Readers carry the view as a ghost parameter. Places where the source stops with `corrupt`, `bug` or a
  panic are assertions, unless a caller can get there, and then the result says so.
- The language of a regexp is a set of byte strings. Zero-width operators denote the empty string, any character any
  bytes, and a class all that its compiled form accepts, so that nothing compiled instructions read is left out
  (`RegexpTheorems.CompiledWordsMatch`). The fold orbit of a rune is a parameter, so the theorems hold for any orbit.
- A program for the matcher is an arbitrary instruction list. Zero-width tests are kept, and their meaning is stated
  with the neighbouring bytes.
- A run of the manifest protocol is a sequence of steps of any clients: load, apply, look for the revision, rename,
  give up. A rename is atomic and fails if the revision exists.

Where the source and its comments part, the model follows the source:

- The format comment in `index/read.go` (lines 23 to 40) lets the name list end with an empty name and the posting
  lists with an all-ones list. `Flush` writes both, `Merge` neither, and the last offset of a merged name index is
  counted from the start of the file. No reader depends on it (`Merge.MergedFile`).
- `regexpInfo.canEmpty` is said to record whether a regexp matches the empty string. `concat` never sets it, and neither
  does an empty literal that does not fold case; it is right exactly under the condition of
  `RegexpTheorems.CanEmptyRightIff`. The soundness of the query does not rest on it.
- `isSubsetOf` assumes sorted sets, and `andOr` can build unsorted lists. Only the true answers are used, and those are
  right for any lists.
- The limit of a path in `Merge` is right exactly when the last byte of the path is below 0x7f
  (`MergeMaps.LimitRightIff`). Other paths take the names up to the limit there is; the merge is exact for these.
- Rune ranges that touch the surrogates without reaching from 0xD000 to 0xEFFF do not accept just their own encodings
  (`RuneRanges.AddedExactIff`).
- Evaluating a query on a shard without a filter can run into a nil bitmap, also for queries of ordinary regexps
  (`RegexpEmptyOrs.EmptyOrsArise`, `EndToEnd.ShardStops`); `ShardQueries.Panics` has the shapes.
- A shard in DELETING makes every later `UpdateRepoShard` fail (`Manifests.UpdateSucceedsIff`).
- A rename that loses the race is not retried: its error is not the one that `manifestTxn` looks for.

## Model

| member | source | states |
|---|---|---|
| EndToEnd.IndexAndSearch | index/read.go:333-387 | Indexing files, opening the index and evaluating the query of a regexp: the file written is an index of the accepted files, and unless it reaches 4 GB the names found are exactly those of the accepted files whose trigrams satisfy the query, every file that contains a match among them |
| EndToEnd.Candidates | index/regexp.go:15-21 | On any index of some files, the candidates of a regexp are, in order, exactly the files whose trigram set satisfies its query; each file with a match is among them |
| EndToEnd.MatchSatisfiesQuery | index/regexp.go:15-21 | The trigram set of a text that contains a word of the regexp satisfies the query, with any bytes for any character and everything that a class compiles to |
| EndToEnd.MergeAndSearch | index/merge.go:15-33 | Merging two index files and searching the result: it finds exactly the names of the files that the query selects in the newer index, and in the older one outside the newer one's paths, every such file with a match among them; the result is again an index of its files |
| EndToEnd.MergedHits | index/merge.go:15-33 | A name is to be found in the merged index exactly when it is in one of the inputs |
| EndToEnd.ShardCandidates | cmd/cindex-serve/main.go:144-146 | The first step of a server search: build a shard of any texts and evaluate the query of a regexp without a filter. It stops on nil, or answers nil, exactly as the shape of the query has it, and otherwise finds exactly the texts whose trigrams satisfy the query, every text with a match among them |
| EndToEnd.ShardStops | index2/read.go:116-121 | An ordinary regexp on whose query evaluation without a filter stops |
| EndToEnd.DocTrigramsAre | index2/read.go:62-85 | What a shard lists for a document is the trigram set of its text |
| EndToEnd.IdTrigramsAre | index/read.go:337-387 | The trigrams that an index lists for a file are the trigrams of its text |
| EndToEnd.AddAll | index/write.go:118-193 | After adding any files the writer holds the names and texts of the accepted ones, in the order added |
| EndToEnd.NamesOf | index/read.go:171-174 | The names of a list of candidates, position by position |
| RegexpTheorems.RegexpQueryConservative | index/regexp.go:333-338 | For every tree, every word of its language and every text holding the word, the text's trigrams satisfy RegexpQuery |
| RegexpTheorems.AnalyzeSound | index/regexp.go:420-540 | The invariant of analyze for every tree: a word is in the exact set, or starts with a prefix and ends with a suffix, and the match query holds of its trigrams |
| RegexpTheorems.FoldConcatSound | index/regexp.go:543-555 | Folding concat over a list keeps that invariant for the concatenated language |
| RegexpTheorems.FoldAlternateSound | index/regexp.go:543-555 | Folding alternate over a list keeps it for the union |
| RegexpTheorems.ClassSound | index/regexp.go:506-536 | A character class, with everything that the byte matcher accepts for it: the exact set is its words, or any-char when it is too large |
| RegexpTheorems.SmallClass | index/regexp.go:517-531 | A class small enough to be spelt out compiles to the encodings of its runes and nothing else, surrogates included |
| RegexpTheorems.CompiledWordsMatch | regexp/utf.go:47-67 | What the compiled instructions of a class, of any character and of a single rune read is in the language of their trees |
| RegexpTheorems.LiteralSound | index/regexp.go:434-468 | A literal, folded or not, for every fold orbit |
| RegexpTheorems.PlusSound | index/regexp.go:489-504 | x+ and x{n,m} with n at least 1: the sets of x stay valid for one or more copies |
| RegexpTheorems.RegexpQueryWellFormed | index/regexp.go:333-338 | The query of every tree is a constant, or has no constant, no empty And and only three-byte trigrams anywhere inside |
| RegexpTheorems.AnalyzeLimits | index/regexp.go:359-378 | However large the tree, an exact set has at most maxExact strings, the shortest below four bytes, or else the prefix and suffix sets have at most maxSet strings of at most two bytes, none of them redundant |
| RegexpTheorems.LiteralQueryPrecise | index/regexp.go:260-281 | The query of an unfolded literal says exactly that all its trigrams are there; below three bytes it says nothing |
| RegexpTheorems.ExactQueryPrecise | index/regexp.go:333-338 | Whenever analyze keeps an exact set, the query is satisfied by exactly the trigram sets that contain all trigrams of some word |
| RegexpTheorems.NullableIs | index/regexp.go:341-343 | The tree predicate says whether the language has the empty string |
| RegexpTheorems.NoticesIs | index/regexp.go:558-597 | Which trees analyze marks canEmpty: concat never sets the flag |
| RegexpTheorems.CanEmptyRightIff | index/regexp.go:341-343 | canEmpty tells whether the regexp matches the empty string exactly when the tree has none of the shapes that hide emptiness: an empty literal that does not fold case, or several parts in a row that may all be empty, handed on by captures, repetitions, single parts, or an alternation whose other branches are not noticed either |
| RegexpTheorems.HidesIs | index/regexp.go:434-597 | These shapes are exactly the trees that match the empty string and are not marked so |
| RegexpTheorems.CanEmptyWrong | index/regexp.go:558-597 | The concatenation of two starred trees matches the empty string and is not marked so |
| RegexpTheorems.GivenUpPrecise | index/regexp.go:640-653 | Giving up an exact set records it in the match query without loss |
| RegexpTheorems.ShortSetsKeepQuery | index/regexp.go:666-671 | Sets of short strings add nothing to the query |
| RegexpEmptyOrs.EmptyOrsArise | index/regexp.go:144-166 | The query of the regexp that reads any character and aab or baa, and then the same once more, has an And of two empty Ors inside |
| RegexpSoundness.ConcatSound | index/regexp.go:558-597 | concat keeps the invariant for the concatenation of two languages, seam trigrams included |
| RegexpSoundness.AlternateSound | index/regexp.go:600-623 | alternate keeps it for the union |
| RegexpSoundness.SimplifySound | index/regexp.go:633-659 | simplify, forced or not, keeps it |
| RegexpSoundness.AddExactSound | index/regexp.go:626-630 | addExact keeps it |
| RegexpSoundness.AndTrigramsSat | index/regexp.go:260-281 | andTrigrams is exact: q and, unless a string is shorter than three bytes, all trigrams of one of the strings |
| RegexpSoundness.SimplifiedSetReduced | index/regexp.go:666-711 | simplifySet leaves at most maxSet strings of at most two bytes, none of which extends another |
| RegexpSoundness.ShrinkCoarser | index/regexp.go:673-691 | The shortening loop only makes the set coarser: every string keeps a prefix (or suffix) in it |
| RegexpSoundness.DropRedundantCoarser | index/regexp.go:693-711 | Dropping redundant strings does too |
| RegexpSoundness.SeamCovers | index/regexp.go:584-593 | A word of the concatenation satisfies the query built over the seam |
| RegexpSoundness.SortedIndependentAntichain | index/regexp.go:693-711 | In a sorted set, comparing each string with the one before it is enough to make all of them independent |
| RegexpPrecision.ConcatQueryIff | index/regexp.go:558-597 | For two parts without exact sets: the query of the concatenation holds exactly when those of both parts do and, with at most twenty strings on either side of the seam and every pair of three bytes or more, all trigrams of some pair across it are there |
| RegexpPrecision.ConcatIs | index/regexp.go:558-597 | A concatenation of which a part is not exact: exactly which trigram sets satisfy its query, and exactly which strings, before they are cut, its words start and end with |
| RegexpPrecision.ConcatExactIs | index/regexp.go:564-566 | Two exact parts: the joined words are kept or given up as any exact set is |
| RegexpPrecision.AlternateIs | index/regexp.go:600-623 | An alternation that is not exact: its query holds exactly when that of a branch does, with the trigrams of one of the branch's words where they are known, and when the sets that are cut demand nothing else |
| RegexpPrecision.AlternateExactIs | index/regexp.go:604-606 | Two exact branches: the words of both are kept or given up as any exact set is |
| RegexpPrecision.PlusTree | index/regexp.go:489-504 | The query of x+ holds exactly when that of x does and, for strings of three bytes or more, all trigrams of one of them are there; prefixes and suffixes are those of x |
| RegexpPrecision.SimplifyExactIff | index/regexp.go:633-659 | An exact set stays with at most seven strings, one of them of at most three bytes, or of at most two at the end; otherwise the query demands, if all are of three bytes or more, the trigrams of one of them |
| RegexpPrecision.SimplifyQueryIff | index/regexp.go:655-671 | Without an exact set the query gains just what the prefixes and the suffixes demand before they are cut |
| RegexpPrecision.SimplifiedSetIs | index/regexp.go:666-711 | simplifySet, exactly: each string cut to two bytes, or as far below as it takes to be left with at most twenty, without the strings that another one makes redundant |
| RegexpPrecision.ShrinkCuts | index/regexp.go:673-691 | The shortening loop stops at the greatest length that leaves at most twenty strings |
| RegexpPrecision.DropsRedundant | index/regexp.go:693-711 | What is dropped is exactly what extends another string of the set |
| RegexpPrecision.SeamSat | index/regexp.go:584-593 | The test on sizes and minimum lengths adds exactly the demand for one pair across the seam |
| RegexpPrecision.ClassTree | index/regexp.go:506-536 | A class is its words unless its ranges span more than a hundred runes; then it is any character |
| RegexpPrecision.LiteralTree | index/regexp.go:466-468 | A literal is known up to three bytes; a longer one demands exactly its trigrams and goes on with its two ends |
| RegexpPrecision.FoldedTree | index/regexp.go:435-465 | A folded letter is the class of its orbit, and further letters are joined from the left |
| RegexpPrecision.ListTrees | index/regexp.go:543-555 | Lists are joined from the left, and without parts they are the empty match and the match of nothing |
| RegexpPrecision.SameTrees | index/regexp.go:473-492 | A capture is its subtree, x? is x or nothing, and x{n,m} with n above zero is x+ |
| RegexpPrecision.UnknownTrees | index/regexp.go:470-488 | Any character, x* and x{0,m} let every text pass |
| RegexpPrecision.FinalTree | index/regexp.go:333-338 | Words still known at the end demand the trigrams of one of them; otherwise the query is that of the analysis |
| RegexpSeams.PlusPlusPrecise | index/regexp.go:584-593 | Two literals of three bytes or more, each repeated with +: the query holds exactly of the trigram sets with all trigrams of the two in a row, those across the seam included |
| RegexpSeams.AbcDefQuery | index/regexp.go:584-593 | The query of (abc)+(def)+ asks for abc, bcd, cde and def and nothing else, and refuses a text with the words apart |
| RegexpSeams.SeamTrigrams | index/regexp.go:584-593 | The trigrams of two words in a row are those of each and those of the four bytes around the seam |
| RegexpLanguages.LiteralLaws | index/regexp.go:466-468 | The language of a literal, letter by letter |
| RegexpLanguages.FoldedLaws | index/regexp.go:435-465 | With folding, each letter stands for the runes of its orbit |
| RegexpLanguages.ListLaws | index/regexp.go:476-480 | A concatenation matches what its first parts match, and then the last; an alternation what one of its branches does |
| RegexpLanguages.RepeatLaws | index/regexp.go:485-504 | Star, plus and counted repetition: no copy where that is enough, or one more than between one less of each |
| RegexpLoops.SimplifyInfo | index/regexp.go:633-659 | The in-place loops of simplify compute the value that the soundness theorems are about |
| RegexpLoops.SimplifySet | index/regexp.go:666-711 | simplifySet in place on an array: its set and its query |
| RegexpLoops.ShrinkInPlace | index/regexp.go:673-691 | The shortening loop, which compacts the array it reads |
| RegexpLoops.ShortenInPlace | index/regexp.go:675-690 | One round of it |
| RegexpLoops.DropInPlace | index/regexp.go:697-708 | The loop that drops redundant strings over the front of the array |
| RegexpLoops.MoveExact | index/regexp.go:641-652 | Moving the ends of the exact strings into the prefix and suffix sets |
| Queries.AndOrSat | index/regexp.go:52-170 | andOr is exact: for all queries whose constants carry no operands and every trigram set, also with unsorted lists, the result holds just when q op r does, through absorption, flattening, factoring and both recursive calls, which end |
| Queries.AndOrWellFormed | index/regexp.go:115-169 | andOr keeps the shape evaluation needs: from inputs with constants only at the root and no empty And there is none in the result |
| Queries.OrEmptyAnd | index/regexp.go:144-166 | The empty And that factoring may leave is absorbed again by the recursive call |
| Queries.AndOrKeepsEmptyOr | index/regexp.go:144-166 | An empty Or, unlike an empty And, can stay: factoring Or nodes with lists in the wrong order leaves one |
| Queries.ImpliesSound | index/regexp.go:174-196 | implies never answers true wrongly |
| Queries.TrigramsImplySound | index/regexp.go:198-224 | trigramsImply never answers true wrongly |
| Queries.TrigramsImplyMonotone | index/regexp.go:198-224 | What the empty list implies, every list implies |
| Queries.FactorElements | index/regexp.go:115-145 | Factoring splits both lists into their own rest and a common part |
| Queries.FactorInPlace | index/regexp.go:117-145 | The factoring loops, writing both lists over their own fronts, compute that split |
| Queries.CopyDown | index/regexp.go:136-143 | The copy loops behind them |
| StringSets.CleanSorted | index/regexp.go:780-795 | clean leaves the same elements, strictly sorted |
| StringSets.CleanInPlace | index/regexp.go:780-795 | clean in place on an array: sort, then compact over the front |
| StringSets.Compact | index/regexp.go:787-794 | The compacting loop |
| StringSets.SortAllSorted | index/regexp.go:780-786 | Sorting leaves an ordered permutation |
| StringSets.SuffixLessIsReversedLess | index/regexp.go:758-772 | The suffix order is the byte order of the reversed strings |
| StringSets.CrossElements | index/regexp.go:838-847 | cross holds exactly the concatenations, sorted |
| StringSets.IsSubsetOfSound | index/regexp.go:861-872 | A true answer of isSubsetOf is right for any two lists, sorted or not |
| StringSets.IsSubsetOfComplete | index/regexp.go:859-872 | On sorted sets the answer is exact |
| StringSets.ScanSubset | index/regexp.go:861-872 | The loop of isSubsetOf |
| StringSets.ScanMinLen | index/regexp.go:803-814 | The loop of minLen |
| StringSets.CleanDeterminedByElements | index/regexp.go:780-795 | Two lists with the same elements clean to the same list |
| TextScan.Scan | index/write.go:118-173 | The scanning loop accepts a text exactly when every byte pair, the length and every line are acceptable, and then has collected exactly its trigrams |
| TextScan.TrigramNumsAre | index/write.go:150 | The numbers collected are those of the text's three-byte substrings |
| TextScan.NoSentinel | index/write.go:581-594 | No accepted text has the trigram of all ones |
| TextScan.WindowIs | index/write.go:129-148 | The 24-bit window holds the last three bytes |
| TextAcceptance.WellFormedAcceptedIff | index/write.go:118-179 | Every well-formed UTF-8 text is indexed unless it is longer than 2^30 bytes, has a line of more than 2000, or more than 20000 trigrams |
| TextAcceptance.AcceptedIff | index/write.go:118-179 | A text is indexed exactly when each of its bytes may follow the one before and these three limits hold |
| TextAcceptance.WellFormedPairs | index/write.go:579-594 | In the encoding of any runes each byte may follow the one before |
| TextAcceptance.PairRoles | index/write.go:579-594 | Which byte may follow which, by their roles in UTF-8: ASCII, continuation, lead, none |
| TextAcceptance.MalformedRefused | index/write.go:579-594 | A byte of 0xf8 or above, a lead byte before anything but a continuation, and a continuation behind ASCII or at the start each keep a text out |
| TextAcceptance.LinesWithinIff | index/write.go:164-172 | The running count stays within a limit exactly when, in front of every byte with that many bytes before it, one of these is a newline |
| Utf8.EncodeIsUtf8 | regexp/utf.go:253-258 | The table of section 3 of RFC 3629: lengths, the bytes that can occur, and the rune they spell |
| Utf8.EncodeRuneIs | regexp/utf.go:253-258 | Surrogates and numbers beyond the last rune are written as the replacement character |
| SparseSets.Set.Has | sparse/set.go:50-53 | Membership, although the sparse array is never cleared |
| SparseSets.Set.Add | sparse/set.go:39-47 | Adding appends a new element once |
| SparseSets.Set.ValidDistinct | sparse/set.go:14-17 | The dense list has no duplicates and fits the capacity |
| PostEntries.PackUnpack | index/write.go:76-86 | Trigram and file id of an entry read back |
| PostEntries.EntryOrder | index/write.go:84-86 | Entries are ordered by trigram, then file id |
| PostEntries.CountingPass | index/write.go:606-623 | One counting pass leaves the entries in the other array by digit, stable |
| PostEntries.CountDigits | index/write.go:606-612 | The counting loop: how often each digit occurs |
| PostEntries.Accumulate | index/write.go:613-617 | The running totals: where each digit's entries start |
| PostEntries.Distribute | index/write.go:618-623 | Each entry goes to the next place of its digit, and no place is written twice |
| PostEntries.SortPost | index/write.go:596-644 | sortPost leaves the original array as two stable passes order it |
| PostEntries.RadixSortedCorrect | index/write.go:596-604 | From entries in file order without duplicates the two 12-bit passes give a permutation in strict (trigram, file id) order |
| PostEntries.PassPermutes | index/write.go:618-623 | Each pass is a permutation |
| PostHeaps.PostHeap.SiftDown | index/write.go:421-438 | siftDown restores the heap order below a hole and keeps the entries, although it swaps on ties |
| PostHeaps.PostHeap.SiftUp | index/write.go:440-450 | siftUp likewise, above a hole |
| PostHeaps.PostHeap.Push | index/write.go:413-419 | push adds the run |
| PostHeaps.PostHeap.Pop | index/write.go:402-411 | pop takes out the root run |
| PostHeaps.PostHeap.AddMem | index/write.go:347-376 | A run joins the heap with all its entries, an empty one not at all |
| PostHeaps.PostHeap.Next | index/write.go:385-400 | next takes out a least entry of all runs, or returns the sentinel |
| PostHeaps.Drain | index/write.go:383-400 | Successive calls return all entries of all runs in order, then the sentinel |
| PostHeaps.LeastIsLeast | index/write.go:385-400 | The root entry is least of all |
| PostMerge.MergePost | index/write.go:284-325 | The merged posting lists: for each trigram exactly the files of its entries, strictly increasing, the trigrams strictly sorted, closed by the empty list of the sentinel; lists and index entries in the format |
| PostMerge.OneList | index/write.go:305-314 | The inner loop writes the deltas of exactly the ids of one trigram |
| PostMerge.IdsStep | index/write.go:309-313 | One more entry extends the list in order |
| Varints.WriteIsPut | index/write.go:561-577 | The five cases of writeUvarint write the standard encoding |
| Varints.UvarintRoundTrip | index/read.go:246-251 | Reading back a written number, whatever follows it |
| IndexWriters.IndexWriter.constructor | index/write.go:61-71 | A new writer holds nothing |
| IndexWriters.IndexWriter.Add | index/write.go:118-193 | A file is indexed exactly when its text is accepted, under the next id; otherwise nothing changes |
| IndexWriters.IndexWriter.PostTrigrams | index/write.go:186-192 | One entry for each trigram of the file, with any flushes between them |
| IndexWriters.IndexWriter.FlushPost | index/write.go:257-280 | A flush moves the buffer into a sorted run and loses no entry |
| IndexWriters.IndexWriter.AddName | index/write.go:242-253 | The name and its offset are appended |
| IndexWriters.IndexWriter.AddPaths | index/write.go:100-102 | Paths are appended |
| IndexWriters.IndexWriter.Heap | index/write.go:287-292 | The heap holds all runs and the sorted buffer |
| IndexWriters.IndexWriter.Flush | index/write.go:196-230 | The file written holds paths, names and, for every trigram, exactly the accepted files that contain it, wherever flushes fell |
| IndexWriters.WrittenRepresents | index/write.go:196-230 | Opening the file written, if under 4 GB, finds just these paths, names and lists |
| IndexLayout.FlushedInOrder | index/write.go:196-220 | A flushed file byte for byte: paths and an empty one, names and an empty one, lists, offsets of names, entries, the offsets of these five sections, between the magic strings |
| IndexLayout.ListBytes | index/write.go:299-320 | A list is its trigram, the differences and a zero; its entry is the trigram, the number of ids and the offset among the lists |
| IndexLayout.DifferenceBytes | index/write.go:308-315 | The first id is written as a difference from -1, each later one from the id before it |
| IndexLayout.NameBytes | index/write.go:242-255 | A name is followed by a zero, and its entry is its offset among the names |
| IndexLayout.VarintBytes | index/write.go:561-577 | Seven bits a byte, low bits first, the top bit on all but the last, and no byte more than needed |
| IndexLayout.NumberBytes | index/write.go:554-559 | Four bytes, the most significant first |
| IndexLayout.TrigramBytes | index/write.go:547-552 | A trigram is written as its own three bytes |
| IndexFormat.BigEndianRoundTrip | index/write.go:547-559 | Big-endian numbers read back |
| IndexFormat.U32RoundTrip | index/read.go:128-130 | Four-byte numbers read back |
| IndexFormat.TriRoundTrip | index/read.go:176-183 | Trigrams read back |
| IndexFormat.DeltasAppend | index/write.go:309-313 | Writing one more delta extends the list by one id |
| IndexFormat.PostingsAppend | index/write.go:297-319 | One more list, and its entry with the offset of the list |
| IndexFormat.NamesAppend | index/write.go:247-249 | One more name, and its offset |
| IndexFormat.LookupAt | index/read.go:196-215 | In a sorted table a list is found under its own trigram |
| IndexReader.OpenFile | index/read.go:97-112 | Open finds all five sections and both counts of a written file |
| IndexReader.Name | index/read.go:156-174 | Name returns name k through the offset table |
| IndexReader.Paths | index/read.go:142-154 | Paths returns the path list |
| IndexReader.ReadStr | index/read.go:162-169 | The bytes up to the first NUL |
| IndexReader.ListAt | index/read.go:177-183 | listAt reads trigram, count and offset of entry k |
| IndexReader.FindList | index/read.go:196-215 | Binary search: the count and offset of the trigram's list, 0 if it has none |
| IndexReader.SearchList | index/read.go:199-203 | The least entry not below the trigram |
| Postings.DecodeDelta | index/read.go:246-252 | The next delta of a list decodes to its next id, with wrap-around from the all-ones start; corrupt is not reached |
| Postings.PostReader.Init | index/read.go:226-237 | A reader stands before the ids of its list that pass the restriction |
| Postings.PostReader.Next | index/read.go:243-271 | next returns the next of these ids, or false at the end; corrupt is not reached |
| Postings.PostReader.Trim | index/read.go:253-261 | The restriction is resliced from the front without losing an id |
| Postings.KeepIncreasing | index/read.go:253-262 | Restricting keeps the order |
| Postings.PostingList | index/read.go:277-285 | The restricted list of a trigram |
| Postings.PostingAnd | index/read.go:291-307 | The intersection, in order, although it is written over the list it reads |
| Postings.PostingOr | index/read.go:313-331 | The union, in order, as a new list |
| Postings.MergeOr | index/read.go:389-408 | The union of two lists, in order |
| QueryEvaluation.PostingQuery | index/read.go:337-387 | For every nested query without an empty And and every restriction: strictly increasing, and exactly the ids in scope whose trigrams satisfy the query; an empty And gives nothing |
| QueryEvaluation.AndList | index/read.go:352-362 | The trigrams of an And node: the ids in scope that have all of them, nil when there is none |
| QueryEvaluation.OrList | index/read.go:373-380 | The trigrams of an Or node: the ids in scope that have one of them |
| QueryEvaluation.AndSubs | index/read.go:363-371 | Each subquery narrows the list, or the restriction while there is no list |
| QueryEvaluation.OrSubs | index/read.go:381-384 | The subqueries' ids are merged in |
| QueryEvaluation.WellFormedEvaluable | index/read.go:351-371 | The queries that andOr builds can be evaluated |
| QueryEvaluation.AndSelected | index/read.go:351-371 | What is left at the end of an And node is what the node selects |
| MergeMaps.RangeIsPrefix | index/merge.go:65-72 | From a path up to its limit lie exactly the names that start with the path, when its last byte is below 0x7f |
| MergeMaps.WithinIsUnder | index/merge.go:65-72 | For such paths, to lie within one of them is to start with one of them |
| MergeMaps.LimitRightIff | index/merge.go:69 | The limit is right for all names exactly when the last byte is below 0x7f |
| MergeMaps.LimitWrong | index/merge.go:69 | Otherwise there is a name on the wrong side of it |
| MergeMaps.DocMaps | index/merge.go:59-105 | The docid maps, whatever bytes the paths end in: ranges that follow each other on both ends, tile the new ids without gap or overlap and put the files in strict name order; the files are all of the newer index and those of the older one within none of its paths; the panic happens exactly when some newer name is within no path |
| MergeMaps.PathMaps | index/merge.go:62-97 | The turn of one path |
| MergeMaps.AdvanceBelow | index/merge.go:65-76 | The cursor stops at the first name not below the bound |
| MergeMaps.ExtendMerged | index/merge.go:78-96 | Recording a range keeps the maps and the order |
| MergeMaps.NotWithin | index/merge.go:65-76 | A name between two paths' ranges is within no path |
| MergeMaps.NameList | index/merge.go:134-165 | The name list and its index, in the merged order; no panic is reached |
| MergeMaps.RangeFound | index/merge.go:139-161 | The next file's range is the next one of its own map |
| MergeMaps.PathList | index/merge.go:110-131 | The merged path list: every input path starts with one that is kept; from sorted lists it is strictly increasing and holds exactly the paths that have no other as a prefix |
| MergeMaps.PathKept | index/merge.go:123-128 | A path is kept just when no path before it is a prefix |
| MergeMaps.PathSkipped | index/merge.go:123-125 | A path below the last one kept is dropped |
| MergePostings.ImageIsPlace | index/merge.go:39-42 | A docid map sends a file to its place in the merged order, and nothing else there |
| MergePostings.MapIdsElements | index/merge.go:276-302 | A translated list holds exactly the places of the files it held |
| MergePostings.MapIdsIncreasing | index/merge.go:276-302 | Translated lists stay strictly increasing |
| MergePostings.PostMapReader.constructor | index/merge.go:247-252 | A reader at its first list |
| MergePostings.PostMapReader.NextTrigram | index/merge.go:254-257 | The next list, or the all-ones trigram behind the last |
| MergePostings.PostMapReader.Load | index/merge.go:259-274 | The trigram, count and ids of the current list |
| MergePostings.PostMapReader.NextId | index/merge.go:276-302 | The next translated id, or the all-ones id; corrupt is not reached |
| MergePostings.PostDataWriter.constructor | index/merge.go:314-318 | A writer with no list |
| MergePostings.PostDataWriter.StartTrigram | index/merge.go:320-325 | A list is begun without writing anything |
| MergePostings.PostDataWriter.AddId | index/merge.go:327-334 | One more id in the format |
| MergePostings.PostDataWriter.EndTrigram | index/merge.go:336-344 | The list and its index entry; a list without ids leaves no trace |
| MergePostings.CopyList | index/merge.go:178-184 | A list of one side is written translated |
| MergePostings.MergeLists | index/merge.go:194-208 | Lists of both sides are written as their union in order; no id comes from both, so the panic is not reached |
| MergePostings.Translated | index/merge.go:167-212 | For each trigram the two translated lists are in order, disjoint, and together the merged files whose origin has the trigram |
| MergePostings.Turn | index/merge.go:176-212 | Each branch of the loop writes the list of the lesser trigram and moves on |
| MergePostings.MergeAllLists | index/merge.go:167-212 | All merged lists: sorted, strictly increasing, none empty, and file n is listed under a trigram exactly when its origin is |
| Merge.MergeFiles | index/merge.go:53-232 | Merge on two index files: the result, if under 4 GB, opens as an index that merges the two: names strictly increasing and exactly the remaining files, every list the image of its origins', the paths those of both |
| Merge.MergedTrigrams | index/merge.go:167-212 | A merged file has the trigrams its origin has |
| Merge.MergedSelects | index/merge.go:15-33 | Any query of the merged index selects the names it selects in the newer index, and those it selects in the older one outside the newer one's paths |
| Merge.MergeIndexes | index/merge.go:15-33 | Merging is indexing again: indexes of their files merge to an index of the remaining files |
| Merge.MergeCovered | index/merge.go:110-131 | With paths that end below 0x7f the result can be merged again: names strictly sorted, each within a path, paths prefix-free |
| Merge.MergedFile | index/merge.go:214-228 | The sections and offsets written are those Open reads |
| Programs.DfaIsNfa | regexp/match.go:148-278 | For every program and line: the DFA built on demand accepts exactly when some path from the first instruction, started anywhere in the line, reaches a match with every zero-width test satisfied by its neighbouring bytes |
| Programs.LiveMatches | regexp/match.go:158-185 | Paths and instruction sets agree |
| Programs.TestsAt | regexp/match.go:214-237 | Each of the six tests in front of a byte, by the place in the line and the bytes on either side: a word boundary holds exactly when just one of them is a word byte, and the other word test exactly when it does not |
| Programs.WordByteIs | regexp/match.go:344-349 | Word bytes are the numerals, the capital and small letters, and the underscore |
| Programs.TestThenByteMatches | regexp/match.go:188-205 | A program that tests and then reads a byte matches exactly the lines that have the byte at a place where all tests hold |
| Programs.WordEdgeFound | regexp/match.go:222-234 | A word boundary in front of x is found in the line x, and no place inside a word |
| Programs.ByteRangeReads | regexp/match.go:158-182 | A byte range reads its bytes, a folding one small letters as their capitals, and never the end of the text |
| Programs.PathIsLive | regexp/match.go:158-185 | Every path stays within the sets |
| Programs.LiveHasPath | regexp/match.go:158-185 | Every member of a set has a path |
| Programs.ClosureTwice | regexp/match.go:242-245 | Re-expanding a queue that was expanded under fewer tests gives the same as expanding once |
| Programs.ClosureIs | regexp/match.go:188-205 | The expansion is the least closed superset |
| Programs.NextTracks | regexp/match.go:210-264 | One computed step keeps the state in line with the sets, and reports a match exactly when there is one |
| Programs.AfterTracks | regexp/match.go:288-304 | So do all steps along a line |
| Queues.AddQ | regexp/match.go:188-205 | addq adds the instruction and what it reaches: new members are reached and lead nowhere outside; it ends because each call adds one |
| Queues.StepEmpty | regexp/match.go:148-153 | stepEmpty computes the expansion of a queue under other tests |
| Queues.StepByte | regexp/match.go:158-185 | stepByte computes the expansion of the first instruction and all successors over the byte, and reports a match in front of it |
| StateCodes.NState.Enc | regexp/match.go:60-80 | enc writes the code of the state |
| StateCodes.NState.Dec | regexp/match.go:83-108 | dec restores flags and instructions; bug is not reached |
| StateCodes.CodeInjective | regexp/match.go:60-80 | Different flags or instruction lists have different codes |
| StateCodes.EncodesOne | regexp/match.go:60-80 | A key names one state |
| StateCodes.StateHasOneCode | regexp/match.go:60-80 | A state has one key |
| StateCodes.SortIncreasing | regexp/match.go:73 | The sorted ids are strictly increasing, with the same elements |
| StateCodes.DeltasInjective | regexp/match.go:74-78 | Differences determine the list |
| Matchers.Matcher.constructor | regexp/match.go:128-133 | An empty cache |
| Matchers.NewDMatch | regexp/match.go:110-124 | The state that waits for the end of the line: every byte but the newline leads back to it |
| Matchers.Matcher.Init | regexp/match.go:135-143 | The start states for the text and for a line |
| Matchers.Matcher.Advance | regexp/match.go:210-262 | The scratch state that a byte leads to, or that a match ends in front of it |
| Matchers.Matcher.TestsBefore | regexp/match.go:214-237 | The zero-width tests in effect before the byte |
| Matchers.Matcher.ComputeNext | regexp/match.go:210-264 | The state that a byte or the end of the text leads to |
| Matchers.Matcher.Cache | regexp/match.go:266-278 | The one state for a queue, found or made, with both match flags right; the mutual recursion ends because each miss adds one of finitely many states |
| Matchers.FewerUnknown | regexp/match.go:273-274 | A miss leaves fewer states unknown |
| Matchers.Matcher.Step | regexp/match.go:288-304 | One byte of match: the table entry found or filled is where the byte leads, whatever the cache held |
| Matchers.Matcher.Match | regexp/match.go:280-310 | match returns the least line end whose line has a match, -1 if there is none, whatever earlier calls have cached, and leaves the matcher ready for the next call |
| Matchers.ReadingStep | regexp/match.go:288-304 | A newline decides about its line and starts the next |
| Matchers.FoundIs | regexp/match.go:305-308 | The state at a line end tells whether the line has a match |
| Matchers.LineIs | regexp/match.go:280-308 | A line is what lies between two newlines, or one and an end of the text; it is the first only if it starts the text |
| TextSearch.SearchTexts | regexp/regexp.go:30-59 | Compile a program once and search any texts one after the other with one cache: each search ends at the first line that a path over bytes and runes through the uncompiled program matches, -1 if there is none |
| BytePrograms.ToByteProg | regexp/utf.go:21-70 | The loop of toByteProg: the result has no rune instruction, leads from each one there was to its exit over exactly what its class adds, and matches exactly the lines that the program matched with its rune instructions |
| BytePrograms.ReplacedMatches | regexp/utf.go:47-67 | Replacing one rune instruction changes no match |
| BytePrograms.PathForth | regexp/utf.go:47-67 | Every path with the rune instruction is a path over its bytes |
| BytePrograms.PathBack | regexp/utf.go:47-67 | Every path over bytes is, where it is at an old instruction, a path with the rune instruction |
| BytePrograms.CompiledStays | regexp/utf.go:163-211 | Compiling another instruction leaves a compiled one as it is |
| BytePrograms.OneByteMatches | regexp/utf.go:72-110 | An instruction that oneByteRange turns into a byte instruction in place changes no match |
| BytePrograms.OneByteWords | regexp/utf.go:72-110 | The byte range that oneByteRange returns for ASCII reads exactly the class |
| BytePrograms.NoRunesSame | regexp/match.go:158-205 | Without rune instructions the paths are the paths over bytes |
| RuneRanges.MaxRunes | regexp/utf.go:124-132 | The largest runes of one, two and three bytes |
| RuneRanges.BoxIsRange | regexp/utf.go:253-267 | A range of one length that no split applies to is a box of encodings, byte by byte |
| RuneRanges.EncodeDigits | regexp/utf.go:253-258 | An encoding is its lead and its base-64 digits |
| RuneRanges.DigitsBox | regexp/utf.go:234-251 | Numbers of an even range are digit strings in a box |
| RuneRanges.SafeFront | regexp/utf.go:238-242 | Splitting off the front ends, shortens both parts, and never creates a surrogate end |
| RuneRanges.SafeBack | regexp/utf.go:243-247 | Splitting off the back likewise |
| RuneRanges.SafeLengths | regexp/utf.go:222-229 | Splitting by length likewise |
| RuneRanges.SurrogateReplaced | regexp/utf.go:255-258 | The range of one surrogate accepts the replacement character instead |
| RuneRanges.AddedExactIff | regexp/utf.go:213-268 | What addRange accepts for a range of runes is exactly their encodings if and only if the range has no surrogate, or reaches from 0xD000 or below to 0xEFFF or above |
| RuneRanges.Missing | regexp/utf.go:255-258 | Any other range misses a rune of its own |
| RuneRanges.SafeAdded | regexp/utf.go:213-268 | Such a range, split down to boxes, is accepted exactly |
| RuneRanges.AddedFromSurrogates | regexp/utf.go:255-258 | A range that starts at a surrogate accepts whole runes and the replacement character only |
| RuneRanges.SmallAdded | regexp/utf.go:255-258 | A range of fewer than 128 runes accepts only what EncodeRune makes of them |
| RuneRanges.ClassExactIff | regexp/utf.go:59-65 | A class in order is accepted exactly if and only if each of its ranges is |
| RuneRanges.AddedNotEmpty | regexp/utf.go:213-268 | No range accepts the empty string |
| RuneBuilders.RuneBuilder.constructor | regexp/utf.go:147-161 | The fragment starts as a failing instruction |
| RuneBuilders.RuneBuilder.UncachedSuffix | regexp/utf.go:163-174 | A new byte instruction in front of a chain or of the exit |
| RuneBuilders.RuneBuilder.AddSuffix | regexp/utf.go:176-190 | The same, shared through the cache for continuation bytes |
| RuneBuilders.RuneBuilder.AddBranch | regexp/utf.go:192-211 | One more branch behind those that are there, through all three forms of the first instruction |
| RuneBuilders.RuneBuilder.AddBox | regexp/utf.go:263-267 | A chain that reads exactly the words of the box |
| RuneBuilders.RuneBuilder.AddRange | regexp/utf.go:213-268 | For every range: the fragment accepts exactly what it accepted before and what the parts of the range add, which is the encodings of its runes for a safe range; it ends on hi-lo and the panic is not reached |
| RuneBuilders.FragmentLeads | regexp/utf.go:192-211 | Followed as a program, the growing alternation reads exactly what its branches read |
| RuneBuilders.ProgramStaysValid | regexp/utf.go:213-268 | The program around a fragment stays valid |
| RuneBuilders.CompileClass | regexp/utf.go:47-67 | A rune instruction becomes byte instructions that lead to its exit over exactly what its ranges add, which is the encodings of its runes for a safe class, all other instructions unchanged |
| RuneBuilders.KeepsReading | regexp/utf.go:163-190 | Adding to the fragment changes nothing for the chains that are there |
| ShardIndex.ShardWriter.Number | index2/write.go:86-92 | The number of a trigram, although the sparse array is never cleared |
| ShardIndex.ShardWriter.AddTrigrams | index2/write.go:80-95 | The document joins the lists of exactly the trigrams of the current file; new lists and the array are fresh, so that any sequence of calls can follow |
| ShardIndex.ShardWriter.ComputeTrigrams | index2/write.go:112-150 | The sliding window of computeTrigrams collects exactly the trigrams of the text |
| ShardIndex.ShardWriter.Add | index2/write.go:166-215 | The text becomes the next document, under exactly its trigrams |
| ShardIndex.BuildShard | index2/write.go:427-460 | After adding any sequence of texts, the flushed lists have document d under trigram t exactly when text d contains t |
| ShardIndex.PutUint32 | index2/write.go:440-443 | The four-byte write puts one entry in place and spoils only what is written later |
| ShardIndex.ShardWriter.FlushPostingLists | index2/write.go:427-460 | The packed table is strictly sorted and lists each document under exactly the trigrams it was added with |
| ShardIndex.TableEntries | index2/write.go:438-443 | The table reads back as the trigrams in their order |
| ShardIndex.SortByKeySorts | index2/write.go:428-436 | The order sorted by trigram |
| ShardQueries.FindTrigram | index2/read.go:62-85 | Binary search: exactly the documents of the trigram, none if it is unknown |
| ShardQueries.PostingQuery | index2/read.go:91-175 | For every query. With a filter: exactly the filter's documents that satisfy the query, the filter unchanged. Without one: it dereferences nil exactly for the shapes of Panics, answers nil exactly for those of GivesNil, and else finds the documents that Found describes |
| ShardQueries.FoundSat | index2/read.go:91-175 | Without a filter nothing is found that does not satisfy the query |
| ShardQueries.SatFound | index2/read.go:91-175 | And everything that satisfies it is found, if parts that give nil are hollow wherever no filter has been made |
| ShardQueries.OrRightIff | index2/read.go:125-150 | An Or node finds what satisfies it exactly when each of its parts that gives nil is hollow |
| ShardQueries.NilOrder | index2/read.go:116-150 | A subquery that gives nil stops an Or node behind another one but not in front of it, and an And node the other way round |
| ShardQueries.NothingFound | index2/read.go:91-175 | A bitmap never holds a document without trigrams |
| ShardQueries.WellFormedFound | index2/read.go:91-175 | For the queries that RegexpQuery makes, found is satisfied |
| ShardQueries.WellFormedNil | index2/read.go:91-175 | For these queries nil means All, or an Or with nothing in it |
| ShardQueries.AndTrigrams | index2/read.go:102-114 | The documents of the filter that have all trigrams |
| ShardQueries.AndQueries | index2/read.go:116-121 | Each subquery within what the others left; without a filter it stops exactly when the first one does or gives nil |
| ShardQueries.OrAll | index2/read.go:125-150 | The union collected in the first bitmap; it stops exactly when a part does, or gives nil behind one that does not |
| ShardQueries.OrFiltered | index2/read.go:152-173 | The not-found set and the closing Xor give the filter's documents that some part found |
| Manifests.AppliedConsistent | cmd/cindex-serve/main.go:604-834 | Every transaction keeps a manifest in which a shard is REFERENCED exactly when a ref names it, refs name shards that exist and default refs exist |
| Manifests.AppliedEvolves | repo/repo.go:240-257 | No transaction drops a shard, and states move only along the table |
| Manifests.UpdateSucceedsIff | repo/repo.go:127-144 | A ref can be pointed at a shard exactly when the shard is complete and no shard at all is being deleted |
| Manifests.ReconcileKeeps | repo/repo.go:127-144 | Reconciling makes states agree with the refs |
| Manifests.AllocateKeeps | repo/repo.go:108-125 | A new shard is in use by no ref |
| Manifests.RefKeeps | cmd/cindex-serve/main.go:821-826 | Setting a ref keeps refs and default refs valid, also for a new repository |
| Manifests.SameUse | repo/repo.go:127-133 | Which shards are in use depends on the refs alone |
| Manifests.UpdateRefs | cmd/cindex-serve/main.go:815-833 | UpdateRepoShard sets the ref; every other ref of every repository is there exactly if it was, with the same value, no other repository appears, and a default ref stays, or becomes this one if it was not set |
| Manifests.UpdateShards | cmd/cindex-serve/main.go:828-830 | It leaves a shard in the making in CREATING with all but the time of its state as it was; of the others exactly those that a ref names are REFERENCED, the rest UNREFERENCED |
| Manifests.StillCompletable | repo/repo.go:244-246 | A shard that is being made can still be completed afterwards |
| Manifests.ReconcileShard | repo/repo.go:127-144 | What reconciling does to one shard, in CREATING or not, in use or not |
| Manifests.LifeCycle | repo/repo.go:240-257 | Made once, referenced only when complete, tombstoned only while not referenced, gone only after that |
| Manifests.InUseIs | repo/repo.go:128-133 | A shard is in use exactly when some ref of some repository names it |
| Manifests.AllocateChanges | repo/repo.go:108-125 | AllocateShard adds one shard in CREATING and changes nothing else |
| Manifests.CompleteChanges | cmd/cindex-serve/main.go:628-637 | CompleteShard turns one shard from CREATING to UNREFERENCED, with size and hashes recorded the first time only, and changes nothing else |
| Manifests.SucceedIff | cmd/cindex-serve/main.go:628-637 | CompleteShard can do its work exactly for a shard in CREATING, SetDefaultRepoRef exactly for a ref that is there |
| Manifests.DefaultChanges | cmd/cindex-serve/main.go:793-806 | SetDefaultRepoRef moves one default ref to a ref that is there, and changes nothing else |
| ManifestStore.Shard.Transition | repo/repo.go:259-270 | A shard moves as the table allows, or not at all |
| ManifestStore.Shard.Created | repo/repo.go:272-282 | Completion, and what it records the first time |
| ManifestStore.Manifest.constructor | repo/repo.go:332-359 | A loaded manifest stands for what the file holds |
| ManifestStore.Manifest.CreateShard | repo/repo.go:108-125 | A shard in CREATING under an id that was free and is not zero |
| ManifestStore.Manifest.UsedIds | repo/repo.go:128-133 | The ids that refs name |
| ManifestStore.Manifest.ReconcileShardStates | repo/repo.go:127-144 | In whatever order the shards come: success exactly when the table allows every move, and then every state agrees with the refs |
| ManifestStore.Manifest.GetOrCreateRepo | repo/repo.go:83-93 | The repository of that name, made if need be |
| ManifestStore.Manifest.AssignRef | repo/repo.go:155-165 | The ref is made or replaced, and the default ref set if there was none |
| ManifestStore.Manifest.CompleteShard | cmd/cindex-serve/main.go:628-637 | Succeeds exactly for a shard in CREATING |
| ManifestStore.Manifest.SetDefaultRepoRef | cmd/cindex-serve/main.go:793-806 | Succeeds exactly for a repository and ref that exist |
| ManifestStore.Manifest.UpdateRepoShard | cmd/cindex-serve/main.go:815-833 | Succeeds exactly when the shard exists and reconciling does |
| ManifestStore.Manifest.Transact | cmd/cindex-serve/main.go:604-834 | Each transaction succeeds exactly when a result is allowed, and then makes one |
| ManifestStore.ApplyTo | cmd/cindex-serve/main.go:583-589 | Loading and applying the function, on a manifest of its own |
| ManifestProtocol.RevisionsChained | cmd/cindex-serve/main.go:581-602 | Over every interleaving of any number of transactions: revisions have no gap, each is one client's function applied to the one before it, and one client committed it |
| ManifestProtocol.CommittedConsistent | cmd/cindex-serve/main.go:581-602 | Every committed manifest of every run is consistent |
| ManifestProtocol.RevisionsStay | repo/repo.go:361-394 | A committed revision never changes or disappears |
| ManifestProtocol.SuccessIsCommitted | repo/repo.go:361-394 | A transaction that reports success is in the directory, made by its own request from the revision before it |
| ManifestProtocol.RevisionsEvolve | repo/repo.go:240-257 | From one revision to the next no shard disappears and states move along the table |
| ManifestProtocol.StepKeeps | repo/repo.go:332-394 | Every step of every client keeps the invariant, and the directory only grows |
| ManifestProtocol.CommitOnce | repo/repo.go:361-394 | A rename commits a revision nobody else has committed |
| ManifestProtocol.AloneCommits | cmd/cindex-serve/main.go:581-602 | A client that nobody disturbs commits an allowed request in four steps, from any reachable state |

## Left out

- Sharing of storage between string sets: `union` may append into its receiver's array, and `alternate` reads its
  argument again afterwards. String sets are values here, as the code intends.
- File input and output, memory mapping, temporary files and buffering: files are byte strings, flushed runs are
  sequences. Read errors while adding a file are not modelled.
- Files of 4 GB and more: the source stops with an error; here the claims about reading are made for smaller ones.
- File ids are below 2^32 - 1, and two merged indexes together have fewer files than that.
- Go's regexp parser and program compiler, and the Unicode fold tables: trees and programs are arbitrary, fold orbits
  a parameter.
- Zero-width operators in the language of a regexp: they denote the empty string there, which only adds words.
- BytePrograms.ToByteProg: classes come as they are after folding. The folded lists and the branch of `oneByteRange`
  for a pair of runes that fold to each other need the fold tables and are not modelled. No rune instruction leads to
  itself, as in programs of Go's compiler.
- RuneRanges.AddedExactIff: encodings follow the bit layout also for surrogates, so the range of all runes accepts
  these three-byte forms too.
- Matchers.Matcher.Match: stands for `match` and `matchString`, which have the same body; the loop of `Grep` around it
  is not modelled. Programs have fewer than 2^32 - 1 instructions.
- Queries.AndOrSat: constants carry no operands, at any depth, as in every query that is ever built.
- QueryEvaluation.PostingQuery: an Or node without trigrams and subqueries evaluates to nothing, as it means; an empty
  And node also does, which it does not mean, and `RegexpTheorems.RegexpQueryWellFormed` shows that none arises.
- Merge.MergeFiles: names strictly sorted in both indexes and the newer one's paths sorted, as the format has them
  (lines 19 to 23 of `index/read.go`). With unsorted paths of the older index the merged path list is only proved to
  cover them.
- ShardQueries.SatFound: one way only. Whether a query loses documents through a part that gives nil depends on what
  stands around that part; for the Or node that loses it the condition is exact (`ShardQueries.OrRightIff`).
- ShardQueries.FindTrigram: bitmaps are sets of numbers, and the serialised shard is its table and lists; FlatBuffers
  and Roaring are not part of this model.
- ShardIndex.ShardWriter.ComputeTrigrams: for texts that it lets through. Which lines it rejects, block-to-line tables
  and document metadata are left out; a rejected file leaves no trace.
- ManifestStore.Manifest.CreateShard: ids are unbounded numbers, so a free one always exists; the random source is any
  choice of a free one.
- ManifestStore.Manifest.AssignRef: a ref is a value in its repository's map, replaced as a whole; JSON encoding, null
  entries of the maps and the clock are left out (one time per transaction).
- ManifestProtocol.RevisionsChained: reading the highest revision is one step, revision names order as their numbers,
  and nothing removes revisions; `CleanupManifests` is not modelled.
- The shard cache, snippets and their line numbers, expression parsing, gRPC services, git fetching, storage and the
  user interface.
- `maybeRewrite`, `maxLen`, `cleanClass`, `dumpPosting` and the formatting of queries: no core claim uses them.
