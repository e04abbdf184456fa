# Verified models of Morpheus components

Morpheus analyses and generates Greek and Latin word forms. This project models seven of its components in Dafny
and proves what they promise. Methods follow the C and Python code branch by branch, with the same constants, and with
its integer widths wherever a value can reach their end in practice ("Left out" names what is unbounded); functions and
predicates say what the code computes, and lemmas prove what that means.

* **The pattern machine** (`src/auto/token.c`, `src/auto/queue.c`): `Labels`, `RingQueue`, `PatternTrie`,
  `PatternFrontier`, `PatternBreadth`, `PatternCompile`, `PatternMatch`, `Occurrences`, `PatternParse`,
  `PatternClients`. Keywords go into a sibling-linked trie,
  `tkcompile` adds failure links and receiving states by a breadth-first walk over a ring queue, `tkmatch` and
  `tkparse` run over a text. A *label* is the string that leads from the root to a node. The two theorems at the end
  are `PatternClients.MatchKeys` (from a list of keywords and a text: exact reports, linear number of failure moves)
  and `PatternClients.ParseKeys` (when the first report comes, which token it is, and when it stays the leftmost one).
* **The generation index** (`tools/gener-index-builder.c`, `src/api/gener_index.c`, `src/gener/generation_service.c`,
  the canonicalisation in `src/api/generation.c`): `ByteStrings`, `GenerFormat`, `GenerIndex`, `Sorting`, `GenerBlocks`,
  `GenerLayout`, `GenerBytes`, `GenerWriter`, `GenerParse`, `GenerService`, `GenerPrint`, `GenerSample`. The theorems at
  the end are `GenerService.Answered`, from the bytes of the stem-source files, through parsing, sorting, layout,
  validation and binary search, to the records a lemma is answered with, and `GenerPrint.PrintedAnswered`: blocks
  printed as a source file come back as the answers for their lemmas.
* **The source preparer** (`tools/gener-source-preparer.c`): `Sha256`, `Sha256Abc`, `PreparedLines`, `PrepareHistory`,
  `GenerPrepare`, `PrepareMeaning`. Its line-driven machine feeds the index builder. `PrepareHistory` says, by looking
  back over the lines read, which derivation is live and what each further line writes; `GenerPrepare.Prepare` proves
  that the flags of the machine compute exactly that, and `PrepareMeaning` what it amounts to. SHA-256 is proved equal
  to the definition of FIPS 180-4 (sections 4.1.2, 4.2.2, 5.1.1, 5.3.3, 6.2.2).
* **The spelling retries** (`src/anal/checkstring.c`, `src/anal/latin_spelling_internal.h`): `Spelling`, `CheckString`.
  The mutual recursion ends for every word, though some rewrites lengthen it, and gives the word back.
* **The list of analyses** (`src/anal/checkgenwds.c`): `Analyses`.
* **Generated forms** (`src/bridge/generation_normalizer.c`, `src/api/generation.c`): `GeneratedForms`.
* **The lexical audit** (`tools/audit-stemlib-lexical.py`): `LexicalAudit`, isolation of failing records by bisection.

Seven promises are false of the code. Each is stated with the condition under which it holds, and with an input.

* A token reported by `tkparse` is the leftmost longest one of the text read, but need not be the one of the whole text:
  it is, however the text goes on, exactly if it starts before the label that the next character leads to
  (`Occurrences.ForGoodIff`). A run on `abcf`: `PatternClients.ParseAbcf`.
* `tkcompile` does not fail only without keywords, and does not always complete the machine: its count is a `short`.
  It fails if the number of entries is a multiple of 65536 (`PatternClients.CountWraps`), and otherwise only if the queue
  cannot be created. If it goes on, the machine is complete exactly if no state lies below a label that found no room in
  the queue (`PatternCompile.TkCompile`). No label is lost exactly if never more labels wait, between the visits of
  their parents and their own in breadth-first order, than the queue holds (`PatternBreadth.ExactOver`); a count that is
  at least the number of keywords is enough (`PatternBreadth.KeywordsSuffice`), as it is up to 32767 entries
  (`PatternClients.EnoughRoom`). With 65537 entries over three keywords `tkcompile` succeeds and leaves a state without
  its failure and receiving states: `PatternClients.CountTooLow`.
* A source spelling finds its own blocks exactly if it is shorter than a word buffer, though the builder stores longer
  ones: `GenerService.SourceSpellingFinds`, `GenerService.LongSpellingIsStored`, `GenerService.LongSpellingExists`.
* A key the builder has stored, asked for as it is spelled, need not be answered with its own records: it is refused if
  it does not fit a word buffer, answered as the key behind the `!` if it begins with one (canonicalising twice is not
  the same as once), and only otherwise with its own records: `GenerService.StoredKeyAnswered`,
  `GenerParse.StoredKeyFindsItself`, `GenerParse.BangKeyExists`.
* A derivation that is not asked for a form is expanded when it ends, except when a noun, adjective or verb record ends
  it: then it is lost (`PrepareMeaning.ExpandedOnce`, `PrepareMeaning.DroppedExists`).
* `checkstring3` gives the word back except for a word that the restored vowel `ai` makes longer than its buffer:
  `CheckString.GkWord.CheckString3`, `CheckString.OnlyAiIsCut`, `CheckString.AiCutExists`.
* An analysis is stored with its own crasis exactly if it has one, or no form offered since the last one stored has one:
  `Analyses.CrasisKept`. A refused form and a merged one leave theirs behind: `Analyses.StaleCrasis`.

Where the code and its comments differ the code is followed: `PENDING` is -1, not 0; `tkenter` also fails for an empty
and for a duplicate keyword; the s that completes a Latin ex is put into the spelling tried last, not into the word
itself (`CheckString.LeftByJ`).

## Model

| member | source | states |
|---|---|---|
| Labels.LongestSuffixIsLongest | src/auto/token.c:535-588 | the label a text leads to is a suffix of the text, is a prefix of some keyword, and no longer suffix is |
| Labels.LongestSuffixStep | src/auto/token.c:562-588 | reading one more letter needs only the label kept so far, not the text |
| Labels.FailLabelOfChild | src/auto/token.c:405-410 | the failure label of a child is reached from the failure label of its parent by the search of tkcompile |
| Labels.KeySuffixesAreAll | src/auto/token.c:535-541 | the reports on a text cover every keyword that is a suffix of it, each once, in strictly decreasing length |
| Labels.PassedMore | src/auto/token.c:578-585 | no state lies between a state and its failure state, so a search passes each suffix that is one |
| Labels.PassedSome | src/auto/token.c:546-588 | a search passes something exactly if it does not end with a longer label |
| RingQueue.Queue.constructor | src/auto/queue.c:78-101 | a queue for n items is empty and holds up to n |
| RingQueue.Queue.QAdd | src/auto/queue.c:104-118 | fails exactly if n items are queued, otherwise appends the item, around the end of the buffer if need be |
| RingQueue.Queue.QRemove | src/auto/queue.c:121-136 | takes the oldest item and moves the read cursor to the front |
| RingQueue.Queue.QRead | src/auto/queue.c:139-153 | delivers the next unread item without removing it |
| RingQueue.Queue.QDelete | src/auto/queue.c:163-186 | drops the first items; clears the queue and fails if there are fewer; loses the read position |
| RingQueue.Queue.QReset | src/auto/queue.c:156-160 | the next item read is the oldest one again |
| RingQueue.Queue.QClear | src/auto/queue.c:189-194 | leaves the queue empty |
| PatternTrie.TrieIsPrefixes | src/auto/token.c:247-257 | the labels of the trie are exactly the prefixes of the entered keywords |
| PatternTrie.FirstChildIs | src/auto/token.c:503-531 | the sibling list of a state lists its children in strictly increasing order of their characters |
| PatternTrie.Tree.TkGoto | src/auto/token.c:488-531 | follows the transition on a character, or stops at the place where it would have to be inserted |
| PatternTrie.Tree.TkList | src/auto/token.c:430-458 | a chain of fresh nodes that spells the rest of a keyword and carries its svalue at the end |
| PatternTrie.Tree.TkEnter | src/auto/token.c:247-310 | the dictionary gains exactly the keyword with its svalue; an empty or duplicate keyword fails and changes nothing; sibling lists stay ordered |
| PatternBreadth.SomeWaits | src/auto/token.c:396-422 | whatever comes later in breadth-first order, a waiting label comes no later |
| PatternBreadth.WaitingApart | src/auto/token.c:389-404 | no waiting label is a proper prefix of another |
| PatternBreadth.AntichainBound | src/auto/token.c:370-404 | prefixes of keywords none of which is a prefix of another are at most as many as the keywords |
| PatternBreadth.KeywordsSuffice | src/auto/token.c:370-404 | so a queue for as many labels as there are keywords never overflows, though the result of qadd is ignored |
| PatternBreadth.ExactStep | src/auto/token.c:399-404 | while no label is lost the queue holds the waiting labels in breadth-first order, and after one more child still does unless more wait than it holds |
| PatternBreadth.ExactNext | src/auto/token.c:396-398 | the head of the queue is the next label in breadth-first order |
| PatternBreadth.ExactOver | src/auto/token.c:396-422 | when the queue is empty, no label was lost exactly if never more labels wait than it holds |
| PatternCompile.FailureOf | src/auto/token.c:405-410 | the search for a failure state ends at the state of the longest proper suffix that is a prefix of a keyword |
| PatternCompile.ReceiverOf | src/auto/token.c:416-419 | the search for the receiving state ends, at the state of the longest keyword that is a suffix of the label |
| PatternCompile.Visit | src/auto/token.c:399-421 | the state taken from the queue gets all its children linked and queued |
| PatternCompile.Walk | src/auto/token.c:396-422 | when the queue is empty every state has its depth, failure state, output flag and receiving state, unless it lies below a lost label: then it has none of them |
| PatternCompile.TkCompile | src/auto/token.c:313-427 | fails exactly if the short count of entries is 0 or there is no room for the queue; otherwise the machine is complete exactly if nothing lies below a lost label, and no label is lost exactly if never more wait than the queue holds |
| PatternMatch.ReportMeaning | src/auto/token.c:591-615 | a report is the svalues of exactly the keywords that are suffixes of the text, each once, longest first |
| PatternMatch.ReportChain | src/auto/token.c:606-613 | the token comes first, and the failure state of its receiving state has the rest of the report |
| PatternMatch.TkNext | src/auto/token.c:598-615 | delivers the next pending svalue, PENDING if there is none |
| PatternMatch.TkMatch | src/auto/token.c:546-588 | moves to the state of the longest suffix that is a prefix of a keyword, reports the longest keyword ending there, leaves the others to tknext; TKfail counts exactly one move for every suffix of the old label that is a state and no shorter than the new label |
| PatternMatch.MatchText | src/auto/ttestm.c:45-57 | over a whole text from reset every position reports exactly the keywords ending there; the number of failure moves is given by the suffixes of the text alone, and is at most its length |
| PatternMatch.TkReset | src/auto/token.c:794-802 | the machine is back in its initial state with nothing pending and an empty queue |
| Occurrences.TokenLeftmost | src/auto/token.c:672-683 | among the occurrences that end at the end of a label the longest keyword starts leftmost |
| Occurrences.ExtToken | src/auto/token.c:672-683 | comparing start depths, a new token replaces the pending one exactly if it starts at or before it |
| PatternParse.HeldToken | src/auto/token.c:677-683 | the pending output state always spells the leftmost longest occurrence inside the label |
| PatternParse.TkParse | src/auto/token.c:635-729 | reports nothing and queues exactly the new label, or reports the leftmost longest occurrence and leaves the rest of the label and the failing character queued |
| Occurrences.ConfinedStep | src/auto/token.c:655-706 | as long as nothing is reported, no keyword occurrence of the whole text starts before the label |
| Occurrences.ForGoodIff | src/auto/token.c:618-629 | the leftmost longest occurrence of the text read stays that of the whole text, however it goes on, exactly if it starts before the label the next character leads to |
| PatternParse.ParseText | src/auto/ttestp.c:45-49 | from reset to the first report: the queue equals the label throughout; the report comes on the first character that does not extend a label with a keyword in it, and is the leftmost longest occurrence of all the text before it |
| PatternParse.ShortKeysFit | src/auto/token.c:656-658 | no overflow of the lookahead queue if every keyword has at most 119 characters |
| PatternParse.NotForGood | src/auto/token.c:618-629 | with abcde, c and bcf the leftmost longest occurrence in abc is c, and in abcf it is not |
| PatternClients.KeyMapIs | src/auto/ttestp.c:33-43 | every nonempty line is a keyword and carries the number of the line it first stands on |
| PatternClients.MatchKeys | src/auto/ttestm.c:19-58 | from keywords and a text: each position reports exactly the keywords ending there, longest first, and the failure moves are counted exactly, at most one a character |
| PatternClients.ParseKeys | src/auto/ttestp.c:19-58 | from keywords and a text: when the first report comes, which occurrence it is, and when it is that of the whole text; without a report no keyword occurs before the label the text leads to |
| PatternClients.ParseAbcf | src/auto/token.c:618-629 | a run on abcf reports c, though bcf starts before it |
| PatternClients.CountWraps | src/auto/token.c:274-368 | after 65536 entries of one keyword tkcompile fails |
| PatternClients.CountTooLow | src/auto/token.c:274-404 | after 65537 entries over a, b and bc it succeeds, and the state of bc, which carries a keyword, has no failure and no receiving state |
| PatternClients.EnoughRoom | src/auto/token.c:274-370 | up to 32767 entries the count is at least the number of keywords |
| ByteStrings.ValueOfLe64 | tools/gener-index-builder.c:392-399 | the eight bytes put_u64 writes have the value that was written |
| ByteStrings.Put | tools/gener-index-builder.c:383-399 | put_u32 and put_u64 write the low bytes of the value, lowest first, and nothing else |
| ByteStrings.Get | src/api/gener_index.c:29-49 | get_u32 and get_u64 read the value of their bytes, lowest first |
| ByteStrings.StrCmp | src/api/gener_index.c:261-290 | strcmp on two terminated strings is the order of their contents |
| ByteStrings.CompareIs | tools/gener-index-builder.c:318-328 | strcmp is negative exactly if the first difference is smaller, or the first text is a beginning of the second |
| ByteStrings.CompareTransitive | tools/gener-index-builder.c:318-328 | that order is transitive, strictly so if one of the steps is strict |
| GenerFormat.ComputeHash | tools/gener-index-builder.c:401-410 | the loop computes FNV-1a of the payload |
| GenerFormat.XorIs | tools/gener-index-builder.c:401-413 | the exclusive or, bit by bit |
| GenerFormat.HashOfA | tools/gener-index-builder.c:401-413 | the published hash of the letter a |
| GenerFormat.KeysIncrease | src/api/gener_index.c:130-145 | in canonical tables the keys increase over the whole table |
| GenerFormat.RecordHasOneLemma | src/api/gener_index.c:130-178 | lemma and block ranges tile the tables: every record belongs to exactly one block and one lemma |
| GenerIndex.Index.StringAtOffset | src/api/gener_index.c:81-89 | string_at gives a string exactly if a terminator follows inside the table |
| GenerIndex.Index.LemmaValid | src/api/gener_index.c:130-145 | the test on a lemma entry accepts exactly the canonical ones |
| GenerIndex.Index.ValidLayout | src/api/gener_index.c:91-178 | a file is accepted exactly if some canonical tables are laid out in it under the right header |
| GenerIndex.Index.Lookup | src/api/gener_index.c:261-290 | binary search finds the one entry with the key exactly if a linear scan would |
| GenerIndex.Index.BlockAt | src/api/gener_index.c:292-306 | the entry of the block table, not found beyond its end |
| GenerIndex.Index.RecordAt | src/api/gener_index.c:308-323 | kind and strings of the entry, whose strings are always there in an accepted file |
| Sorting.SortUnique | tools/gener-index-builder.c:470 | with a comparator that leaves no ties every sort routine gives the same list |
| Sorting.QSort | tools/gener-index-builder.c:470 | the list is rearranged and in order |
| GenerBlocks.CompareBlocksTransitive | tools/gener-index-builder.c:318-328 | the order of blocks by lemma and ordinal is transitive |
| GenerBlocks.SortBlocks | tools/gener-index-builder.c:470 | the blocks in the one order compare_blocks allows |
| GenerBlocks.SortKeepsLists | tools/gener-index-builder.c:318-328 | each lemma keeps its record lists in source order |
| GenerBlocks.DiscardEmpty | tools/gener-index-builder.c:430-447 | the blocks with records, in order |
| GenerBlocks.ScanReaches | tools/gener-index-builder.c:360-369 | in sorted blocks the backward scan that stops at another lemma has seen every candidate |
| GenerBlocks.IsDuplicate | tools/gener-index-builder.c:357-369 | the backward scan finds a kept block with the same lemma and records exactly if there is one |
| GenerBlocks.DiscardDuplicates | tools/gener-index-builder.c:350-381 | for every lemma exactly one copy of each record list is left, the one with the lowest ordinal, in order of first appearance |
| GenerLayout.LayoutShows | tools/gener-index-builder.c:511-569 | the tables stand for the blocks: every string, range and count is the one of its block |
| GenerLayout.ShownIsCanonical | tools/gener-index-builder.c:511-569 | tables that stand for sorted nonempty blocks are canonical |
| GenerLayout.EntryHasLists | tools/gener-index-builder.c:511-569 | the blocks of a lemma entry carry exactly the record lists of its key, in order |
| GenerLayout.NoEntryNoLists | tools/gener-index-builder.c:511-569 | a key without an entry has no blocks |
| GenerBytes.LemmaDecoded | docs/gener-index-format.md:81-90 | an encoded lemma entry reads back as itself |
| GenerBytes.FullPicture | tools/gener-index-builder.c:507-569 | a payload whose four areas are filled is, behind a header, a file that holds the tables |
| GenerBytes.PictureRecord | tools/gener-index-builder.c:561-564 | writing a record entry behind the others leaves the three other areas as they were |
| GenerWriter.CountSizes | tools/gener-index-builder.c:472-493 | the counting pass gives the exact sizes of the tables, or some size does not fit |
| GenerWriter.WriteGroup | tools/gener-index-builder.c:511-569 | one lemma with its blocks and records extends the tables in the payload by exactly its entries |
| GenerWriter.WritePayload | tools/gener-index-builder.c:507-569 | the four cursors end at the ends of their areas and the payload holds the tables; it fails exactly if a group is too large for its count field |
| GenerWriter.Emit | tools/gener-index-builder.c:472-584 | succeeds exactly within the host limits, never meets the internal layout error, and gives an index file |
| GenerWriter.WriteIndex | tools/gener-index-builder.c:449-606 | the file stands for the distinct nonempty record lists of the source |
| GenerWriter.TablesDetermined | docs/gener-index-format.md:113-118 | the tables depend on the source only |
| GenerParse.Trim | tools/gener-index-builder.c:156-168 | blanks in front and white space behind are removed |
| GenerParse.CanonicalLemma | tools/gener-index-builder.c:170-189 | the first word without its leading ! and without the markers - _ ^ + |
| GenerParse.CanonicalFits | tools/gener-index-builder.c:170-189 | a key has no white space, no marker and no NUL |
| GenerParse.CanonicalIs | tools/gener-index-builder.c:170-193 | the key of a line is its first word without a ! in front and without its markers |
| GenerParse.TrimmedIs | tools/gener-index-builder.c:156-168 | trimming takes the blanks in front and the white space behind and nothing else |
| GenerParse.PublicKey | src/api/generation.c:218-226 | the loop of morpheus_generate removes a leading ! and the markers, and nothing else |
| GenerParse.SameKey | src/api/generation.c:218-226 | on a spelling without white space both canonicalisations agree |
| GenerParse.WhiteSpellingIsNoKey | src/api/generation.c:218-226 | on a spelling with white space the result is no key of any index |
| GenerParse.StoredKeyFindsItself | src/api/generation.c:218-226 | a stored key is canonicalised to itself exactly if it does not begin with ! |
| GenerService.StoredKeyAnswered | src/api/generation.c:213-240 | asked for as it is spelled, a stored key is refused if it does not fit a word buffer, is answered with its own records if it does not begin with !, and otherwise as the key behind the ! |
| GenerParse.BangKeyExists | tools/gener-index-builder.c:170-189 | such a key can be stored: -!a gives !a |
| GenerParse.SourceIndex.ParseRecord | tools/gener-index-builder.c:216-248 | the kind, stem and keys of a record line, or the error the line has; GenerPrint says which they are |
| GenerPrint.RecordLineAdds | tools/gener-index-builder.c:216-248 | the line made of a tag, a stem, a space and keys adds exactly the record of that kind, stem and keys |
| GenerPrint.RecordRead | tools/gener-index-builder.c:216-248 | so does a line with more blanks; without a stem or keys it is an error |
| GenerPrint.OtherLines | tools/gener-index-builder.c:273-299 | comments and unknown lines change nothing; unexpanded lines, and records before a lemma, are errors |
| GenerPrint.PrintedIsRead | tools/gener-index-builder.c:250-316 | blocks printed as a source file are read back as the same blocks |
| GenerParse.SourceIndex.ParseSource | tools/gener-index-builder.c:250-316 | a source file gives the blocks of its lines or its first error |
| GenerParse.FeedAllBuilds | tools/gener-index-builder.c:250-316 | every run builds blocks with canonical nonempty lemmas, complete records and increasing ordinals |
| GenerService.Generate | src/gener/generation_service.c:174-230 | the visitor sees exactly the record lists of the lemma, block by block, in order |
| GenerService.RoundTrip | tools/gener-index-builder.c:449-606 | blocks written, validated and looked up again: every file that size_t can hold is accepted, and each lemma gives its distinct nonempty record lists in source order |
| GenerService.Build | tools/gener-index-builder.c:616-638 | the builder ends with the file for all sources, an error of one of them, or a host limit |
| GenerService.SourceSpellingFinds | src/api/generation.c:213-240 | a source spelling without white space, with records under its key, finds exactly its own blocks if and only if it is shorter than a word buffer |
| GenerService.SourceSpellingMisses | src/api/generation.c:213-240 | without records under its key the answer is that there is nothing, or that the spelling is too long |
| GenerService.LongSpellingIsStored | tools/gener-index-builder.c:262-292 | the builder stores a spelling of any length that fits its line, and morpheus_generate refuses the long ones |
| GenerService.WhiteSpellingFindsNothing | src/api/generation.c:213-240 | a spelling with white space inside finds nothing |
| GenerService.Answered | src/api/generation.c:195-240 | the whole way from source files to the records of an answer |
| GenerPrint.BlocksOfLists | tools/gener-index-builder.c:330-381 | the lists kept for a lemma are those of its nonempty blocks in source order, but for those that repeat an earlier one |
| GenerPrint.PrintedAnswered | src/api/generation.c:195-240 | print, build, open, ask: the answer for a lemma is the kind, stem and keys of every record entered for it, in order, but for repeated blocks |
| GenerSample.BuildSample | tools/gener-index-builder.c:450-600 | the index of one small source, byte by byte |
| Sha256.BlocksAppend | tools/gener-source-preparer.c:208-224 | compressing block by block is the fold over the message |
| Sha256.Context.Transform | tools/gener-source-preparer.c:135-194 | one compression of FIPS 180-4, section 6.2.2 |
| Sha256.Context.Update | tools/gener-source-preparer.c:208-224 | however a message is cut into pieces, the context is the one for the whole message |
| Sha256.PaddedLong | tools/gener-source-preparer.c:237-247 | when the length does not fit the last block, two blocks are the padding of section 5.1.1 |
| Sha256.Hex | tools/gener-source-preparer.c:226-259 | the digits of SHA-256 of the text |
| Sha256Abc.AbcDigest | bindings/js/deno/test/data_test.ts:110-116 | the published digest of abc |
| PreparedLines.BuilderTakes | tools/gener-index-builder.c:250-316 | on lemma and record lines, a lemma first, the builder never finds a record before a lemma or an unexpanded record, and takes all of them exactly if it takes each |
| PreparedLines.PrefixKeepsTag | tools/gener-source-preparer.c:590-618 | the stored prefix of a record begins with its tag |
| PreparedLines.PrefixIs | tools/gener-source-preparer.c:590-618 | the prefix of a line is its first two tokens and the blanks between them |
| PreparedLines.PrefixNeedsTwo | tools/gener-source-preparer.c:590-618 | a line that does not begin with a blank has one exactly if it has two tokens |
| PreparedLines.TokenIs | tools/gener-source-preparer.c:360-379 | take_token takes what stands between the blanks |
| GenerPrepare.Preparer.ApplyException | tools/gener-source-preparer.c:494-555 | succeeds exactly on an unused exception, its fingerprint, and a line and state it is for; writes, changes and marks what looking back prescribes |
| GenerPrepare.Preparer.FlushDerivation | tools/gener-source-preparer.c:432-440 | expands the live derivation exactly if it has not been asked for a form, and fails exactly if that fails |
| GenerPrepare.Preparer.ContinuationLine | tools/gener-source-preparer.c:768-799 | continues the last record, or expands the live derivation for its last principal part; fails exactly without one |
| GenerPrepare.Preparer.DerivationLine | tools/gener-source-preparer.c:801-826 | the stem, the name and the keys of the line become the live derivation, after the one before is expanded if due |
| GenerPrepare.Preparer.RequestLine | tools/gener-source-preparer.c:828-846 | expands the live derivation for the request, whose first token is the principal part from now on |
| GenerPrepare.Preparer.InputLine | tools/gener-source-preparer.c:678-846 | whether the line is ignored, skipped, taken by an exception or stands for itself, the machine is in the state of all lines so far, or stops exactly at an error |
| GenerPrepare.Preparer.PrepareFile | tools/gener-source-preparer.c:654-866 | succeeds exactly if every line can be read and the last derivation expanded; writes exactly what the lines prescribe and applies exactly the exceptions they match |
| GenerPrepare.Prepare | tools/gener-source-preparer.c:896-946 | succeeds exactly if all files can be prepared and every exception was applied; each was applied once; the output is what the lines prescribe, and the builder takes it exactly if it takes every line |
| PrepareHistory.ErrorStays | tools/gener-source-preparer.c:674-849 | a file whose beginning has an error has one |
| PrepareMeaning.BaseNeedsLive | tools/gener-source-preparer.c:709-846 | a derivation base implies a live derivation, and any base a lemma before |
| PrepareMeaning.LiveSince | tools/gener-source-preparer.c:801-846 | a derivation stays live until another opens or something closes it, and was asked exactly if a request came since |
| PrepareMeaning.ExpandedOnce | tools/gener-source-preparer.c:432-440 | a derivation is expanded of itself at most once, at its end, exactly if it was not asked for a form and no record ends it |
| PrepareMeaning.DroppedExists | tools/gener-source-preparer.c:731-766 | a derivation followed by a noun record is never expanded |
| PrepareMeaning.RoleIs | tools/gener-source-preparer.c:678-846 | which lines are lemmas, records, continuations, derivations and requests, by their first bytes |
| PrepareMeaning.KindsOfEvents | tools/gener-source-preparer.c:709-846 | which lines and exceptions open and close a derivation and ask it for a form |
| PrepareMeaning.AllowsIs | tools/gener-source-preparer.c:515-584 | which line and state each kind of exception is for |
| PrepareMeaning.EventIs | tools/gener-source-preparer.c:476-493 | a line is excepted by the first exception that names it, if there is one |
| PrepareMeaning.SuffixIs | tools/gener-source-preparer.c:463-474 | an exception names a file name, or the end of a path after a slash |
| PrepareMeaning.DerivationIs | tools/gener-source-preparer.c:801-826 | the stem, the name and the keys of a derivation are exactly those its line spells |
| PrepareMeaning.RequestExpands | tools/gener-source-preparer.c:828-846 | the text of a request, without its margins, is expanded for the stem, name and keys of the derivation it stands behind |
| PrepareMeaning.RecordContinued | tools/gener-source-preparer.c:768-780 | behind a record, with nothing between that changes the base, a continuation writes the first two tokens of the record as they stand there and the rest of its own line |
| PrepareMeaning.RecordHasTwo | tools/gener-source-preparer.c:745-753 | every record accepted has two tokens |
| PrepareMeaning.RequestContinued | tools/gener-source-preparer.c:781-799 | behind a derivation a continuation is expanded for it, with the principal part of the last request and the text of the continuation |
| PrepareMeaning.ContinuationBehind | tools/gener-source-preparer.c:768-799 | every continuation accepted stands behind one of the two |
| PrepareMeaning.DirectLinesAre | tools/gener-source-preparer.c:678-766 | the lines that stand for themselves are the lemmas and direct records that no exception matches |
| PrepareMeaning.RunCopies | tools/gener-source-preparer.c:709-766 | over all files exactly those lines are copied, in order |
| PrepareMeaning.FileKnown | tools/gener-source-preparer.c:654-866 | only tagged lines are written, a lemma first |
| PrepareMeaning.BuilderReads | tools/gener-index-builder.c:294-302 | so the builder never finds a record before a lemma or an unexpanded record in the output |
| Spelling.ExpandShrinks | src/anal/latin_spelling_internal.h:16-36 | the s put after ex lengthens the word and still makes the measure smaller |
| Spelling.HardenedShrinks | src/anal/checkstring.c:1068-1105 | turning u to v makes the measure smaller if anything changed |
| Spelling.LetterShrinks | src/anal/checkstring.c:668-702 | turning i to j makes the measure smaller |
| Spelling.FinalNShrinks | src/anal/checkstring.c:532-559 | an s for the final n makes the measure smaller |
| Spelling.VowelShrinks | src/anal/checkstring.c:960-981 | a vowel, accent and quantity mark for the apostrophe leave one apostrophe less |
| Spelling.ExpandEx | src/anal/latin_spelling_internal.h:16-36 | inserts the s exactly after ex before c, p or t if the buffer has room |
| Spelling.U2V | src/anal/checkstring.c:1068-1105 | changes only a u before a vowel to v, the first letter always and a u between vowels always, and counts a change exactly if there is one |
| Spelling.CmpEnd | src/morphlib/cmpend.c:10-23 | finds an ending exactly if the word is a nonempty stem and the ending; the stem is smaller than the word |
| Spelling.HasTt | src/anal/checkstring.c:997-1007 | exactly the first tt becomes ss, which leaves fewer t's |
| Spelling.StripKeeps | src/greeklib/stripacc.c:11-40 | stripping accents removes all of them and no other character |
| Spelling.BareAppend | src/greeklib/stripacc.c:11-40 | and leaves the others in order |
| CheckString.GkWord.CheckString4 | src/anal/checkstring.c:729-826 | ends and restores the word; looks it up, and in Greek gives up only after the first cun as sun and the first tt as ss |
| CheckString.GkWord.CheckString3 | src/anal/checkstring.c:313-727 | ends for every word in every language and restores the word on every return path, cut to its buffer; gives up only after every spelling: small letters, the elided vowels, each enclitic, est and n, v, j, the s after ex, unless analyses were met on the way where the code asks for that |
| CheckString.GkWord.TryCapitals | src/anal/checkstring.c:346-396 | before it fails it has looked up a capitalised word with small letters: in Greek without the capital mark, else with a small first letter, all small, and small but the first |
| CheckString.GkWord.TryEnclitics | src/anal/checkstring.c:434-466 | before it fails it has looked up the word without each enclitic of the language, unless analyses were met |
| CheckString.GkWord.TryConsonants | src/anal/checkstring.c:608-722 | before it fails it has looked up the word with v, each j alone, and the s after ex in the spelling tried last |
| CheckString.GkWord.TryItalian | src/anal/checkstring.c:629-656 | before it fails it has looked up an Italian word with v for every u, unless there were analyses |
| CheckString.LeftByJ | src/anal/checkstring.c:675-716 | the s after ex goes into expjatus, not into expiatus |
| CheckString.GkWord.CheckApostr | src/anal/checkstring.c:841-958 | ends and restores the word; has looked up the word with e for the apostrophe, and with a, i, o and ai if a syllable is left, also with p, k, t or kt for an aspirate f, x, q or xq before it, and, if that gave nothing, without an accent on the last syllable |
| CheckString.GkWord.ElidedApo | src/anal/checkstring.c:854-943 | so of a)f' it tries a)pe/, a)po/ and the others |
| CheckString.VowelSpelled | src/anal/checkstring.c:960-981 | how each restored vowel is spelled, with and without an accent, and when the buffer is too short |
| CheckString.GkWord.TryLatinEnds | src/anal/checkstring.c:470-560 | before it fails it has looked up the word without its est, then what is left without ust, ist or ost, each test on what the one before left; what it leaves is that word, or that word without the final n it tried |
| CheckString.GkWord.AddApostrVowel | src/anal/checkstring.c:960-981 | the vowel for the apostrophe, an accent if there is none and a quantity mark, as far as the buffer has room |
| CheckString.VowelRestored | src/anal/checkstring.c:891-943 | the restored word is a word the recursion can take, with an apostrophe less |
| CheckString.RoughShrinks | src/anal/checkstring.c:854-872 | smoothing the aspirate before the apostrophe keeps apostrophes and accents and removes an aspirate |
| CheckString.BareShrinks | src/anal/checkstring.c:945-956 | without its accents an accented word is smaller |
| CheckString.OnlyAiIsCut | src/anal/checkstring.c:929-943 | the word with its vowel restored is cut exactly if ai replaces the apostrophe of a word of 59 characters |
| CheckString.AiCutExists | src/anal/checkstring.c:929-943 | there is such a word |
| Analyses.CollectedIs | src/anal/checkgenwds.c:426-439 | the list holds each analysis once, in order of appearance, with the dialects of all its equivalents or none if the first had none |
| Analyses.CollectedDialects | src/anal/checkgenwds.c:451-463 | a dialect bit stands in an entry exactly if one of its analyses has it; an analysis good in every dialect stays so |
| Analyses.RunIsCollected | src/anal/checkgenwds.c:201-440 | but for the crasis, the list after any run is that of the accepted analyses |
| Analyses.LemmasAdded | src/anal/checkgenwds.c:426-438 | a new analysis adds a lemma exactly if no stored one has it |
| Analyses.SlotIsClean | src/anal/checkgenwds.c:262-268 | after any run the place for the next analysis has no crasis exactly if no form offered since the last one stored has one |
| Analyses.CrasisKept | src/anal/checkgenwds.c:262-268 | in any run a stored analysis has the crasis of its own form exactly if the form has one or the place was clean |
| Analyses.StaleCrasis | src/anal/checkgenwds.c:262-268 | after a form with crasis that is refused, or merged into one stored before, a form without is stored with that crasis |
| Analyses.Word.Grow | src/anal/checkgenwds.c:244-261 | growth keeps every entry and the count within the capacity |
| Analyses.Word.Find | src/anal/checkgenwds.c:426-435 | finds the equivalent analysis exactly if there is one, and tells whether the lemma is new |
| Analyses.Word.AddAnalysis | src/anal/checkgenwds.c:201-440 | merges into the equivalent analysis or appends; the lemma counter rises by the number of new lemmas |
| Analyses.AddAll | src/anal/checkgenwds.c:201-440 | over every run the analyses stay pairwise not equivalent and the counters are those of the list |
| GeneratedForms.CompareTransitiveGenerations | src/bridge/generation_normalizer.c:136-167 | the comparator is transitive |
| GeneratedForms.CompareTotal | src/bridge/generation_normalizer.c:136-167 | it leaves only equal records equal |
| GeneratedForms.Collector.Grow | src/bridge/generation_normalizer.c:55-72 | capacity doubles from 32 up to the limit, keeps the records, and fails only at the limit |
| GeneratedForms.Collector.CollectForm | src/bridge/generation_normalizer.c:74-116 | takes forms up to the limit, numbered in order of arrival, and never runs out of room before |
| GeneratedForms.ComparedIsAhead | src/bridge/generation_normalizer.c:136-167 | part of speech decides, then tense, voice, mood, degree, number, person, case, gender, dialect, region, surface, lemma, flags, and order of arrival last |
| GeneratedForms.Normalize | src/bridge/generation_normalizer.c:194-237 | more forms than the limit are an error, otherwise all come in that order |
| GeneratedForms.OneOrder | src/bridge/generation_normalizer.c:232-234 | there is only one such order, whatever sort routine is used |
| GeneratedForms.FilterIs | src/api/generation.c:97-119 | the filter keeps exactly the matching records, in order |
| GeneratedForms.MatchesIs | src/api/generation.c:92-119 | what each option asks for, masks bit by bit |
| GeneratedForms.FilterLists | src/api/generation.c:228-265 | of the ordered forms it leaves each wanted one once, with its number of arrival |
| GeneratedForms.Generate | src/api/generation.c:228-265 | the result is each wanted form once, ordered by the fields; the limit error comes exactly if more are wanted than the limit allows, or there are more than 65536 forms |
| LexicalAudit.JoinLines | tools/audit-stemlib-lexical.py:26-27 | lines with their ends put together are the input |
| LexicalAudit.LinesAre | tools/audit-stemlib-lexical.py:26-27 | and each is one line: LF, CR or CR LF stand at its end only |
| LexicalAudit.SplitAgain | tools/audit-stemlib-lexical.py:94-95 | lines put together split into the same lines |
| LexicalAudit.SplitRecords | tools/audit-stemlib-lexical.py:26-33 | the records put together are the input, one lemma line each; refused exactly if the input does not begin with a lemma after blank lines |
| LexicalAudit.CeilLogIs | tools/audit-stemlib-lexical.py:98-100 | the halving depth is the least L with n at most 2 to the L |
| LexicalAudit.RunsBound | tools/audit-stemlib-lexical.py:74-103 | n records take at most 2n - 1 runs, whatever the tool does |
| LexicalAudit.SeparableIsExact | tools/audit-stemlib-lexical.py:74-105 | if batches fail exactly for the bad records in them, the failures are those records in order, no batch is left over, and k of n take at most 1 + 2 k ceil(log2 n) runs |
| LexicalAudit.Audit.FindLemma | tools/audit-stemlib-lexical.py:94-95 | the generator always finds the lemma line of a record |
| LexicalAudit.Audit.Probe | tools/audit-stemlib-lexical.py:74-103 | reports exactly the records around which every batch of the bisection fails, and exactly the batches around which every batch fails and which fail though neither half does, each once |
| LexicalAudit.RunAudit | tools/audit-stemlib-lexical.py:26-33 | a failing input always leaves a failing record or a batch-only entry |

## Left out

* `tkpnext`, `tkflush`, `tkcopy`, `tkdestroy`: the rescan of the lookahead queue and memory management; `tkparse` is
  followed to its first report.
* Nodes of the pattern trie are records in a map from pointer values, so that pointers can be compared and overwritten
  as in C; freeing and reuse of nodes are not modelled. The magic number of a machine is a flag.
* PatternCompile.TkCompile: a count that has wrapped below 0 reaches `qcreate`, which takes a `long`, as an `int`; what it
  then makes of it depends on the platform, and is a parameter: no queue, or one for any number of states. A buffer
  whose size itself overflows is not modelled.
* `tknext` and `tkparse` on a machine that `tkcompile` left incomplete: they run on complete ones.
* Analyses.Session: the totals of a session are unbounded; beyond `INT_MAX` the `int` counters would overflow.
* The characters 0 (end of a keyword) and 255 (the wild card) occur in no keyword and no text, as `token.c:82-84` asks.
* Failure of `malloc` and `realloc`, file errors and messages, in all components.
* `qsort` is an insertion sort; `Sorting.SortUnique` shows that the routine does not matter.
* Growth of the builder's block and record arrays and of the preparer's output buffer: they are sequences.
* GenerParse.FirstLine: `fgets` is modelled on the bytes of the file; reading errors are not.
* `size_t` has 64 bits.
* `load_exceptions` and the arguments of the programs: the exceptions are a parameter.
* PrepareHistory.Expands: `morpheus_gener_expand_derivation` is a parameter; it fails or writes one line tagged `:vs:`,
  `:aj:` or `:no:`.
* GenerService.Generate: what the engine makes of a record (`generate_record`) is not modelled; the visitor collects
  the records.
* CheckString.GkWord.CheckWord: dictionary lookups (also `checkindecl`, `checknom`, preverb and ending tables) return
  anything and leave the word alone; of the analyses only the number is kept.
* CheckString.GkWord.CheckString3: the order of the lookups, and that nothing else is looked up, is not stated; what an
  analysis makes of the return value is not modelled.
* CheckString.GkWord.CheckAccent: whether the last syllable has an accent is a parameter, and so is the number of
  syllables; an accent found is a character of the word.
* CheckString.GkWord.AddApostrVowel: a word one character too long for its buffer is kept whole; what `ai` would
  overwrite behind the buffer is not modelled, nor the byte before the buffer that `checkapostr` reads for a word like
  `q'`.
* Analyses.Form: the tests of `AddAnalysis` before the search for duplicates, and how it builds compound lemmas, are
  not modelled; a form comes with their outcome. The word form is a number.
* Truncation of texts, `effective_dialect` and the mapping of legacy values in `collect_form`; option validation and the
  copying of results in `morpheus_generate`.
* Receipts, checksums, time limits and the JSON report of the lexical audit.
* `ssearch.c`, `gk_sprint.c`, stacks, printing, data tables, the other Python scripts.
