# Festival, modelled and proved in Dafny

Festival is a text-to-speech system written in C++ around a small Lisp. This project models the
algorithms of Festival that stand on their own, and proves what they are for. Each `.dfy` file names
the part it models in its first line; `dafny verify dfyconfig.toml` checks all of it.

* **Compiled lexicon** (`LexFile`, `LexCache`, `Lexicon`, `LexCompile`, `WordOrder`). A lexicon is a
  sorted text file, one entry to a line, searched by halving byte offsets. Each probe skips to the next
  newline, and a binary tree, split in place, remembers the intervals of earlier searches. The tree is
  not a partition of the file: when a probe meets a word that the tree already has, nothing is added,
  and a later interval then hangs below an older and wider leaf. The invariant is therefore about the words routed
  to a node, not about children and parents. The main results: whatever was looked up before, the cache
  gives only intervals that the uncached search visits, every lookup ends as the uncached one would, and it
  answers as a scan of the whole file exactly when the layout of the file does not hide the word.
* **Letter-to-sound rules** (`LtsPatterns`, `LtsRules`, `LtsRewrite`). Contexts have postfix `*` and `+`.
  A pattern is given a meaning as a language, and the backtracking matcher is proved to decide it in both
  directions; left contexts are stored reversed, and repairing the displaced operators in place is proved
  to be reversal of the pattern's units. Rewriting a word cuts it, without gaps, into the centres of the
  first rules that apply.
* **Unit selection voices** (`DiphoneIndex`, `DiphoneVoice`, `UnitTiming`). The diphone catalogue, the
  linked candidate lists spliced over modules, the sequence of units when diphones are missing, and the
  segment end times read off it.
* **Client and server** (`ClientFraming`, `TextToWave`, `StuffedFile`). The automaton that finds the end of an
  expression, the text that is escaped into a command, the answers waited for, and the receiver that takes
  stuffed bytes until the key.
* **Numbers** (`NumberWords`, with the module `NumberTexts`). Numbers in words and as ordinals, with a grammar and readers.
* **Join costs** (`JoinCost`), **syllables** (`Syllables`), **UTF-8** (`Utf8`), **the chunker of texts into
  utterances** (`Chunker`), and **the audio spooler** (`CommandQueue`, `Spooler`).

Code that changes things in place is modelled so: tree and list cells, buffers, the spooler and the
lexicon are classes or arrays, and their methods are proved against functions about which the lemmas speak.

## What the code does not live up to

Where the code falls short of its purpose, the model keeps what the code does, and the condition is a lemma.

* A lookup whose word ends the file, none of whose entries has the features asked for, answers nothing
  although a headword matched: `LexFile.AnswerIntendedIff`, with a file in `LexFile.LastGroupLost`.
* The search gives up on intervals of fewer than ten bytes, and so can miss a word that is there. It misses none exactly
  when no such interval hides one: `LexCache.NoneMissedIff`. Lines of nine bytes or more are enough
  (`LexCache.LongLinesHideNothing`); a line of eight can hide the entry after it (`LexCache.EightByteLineHides`).
  Together with the case above, `Lexicon.OutcomeIntendedIff` says exactly when a lookup gives what it is meant to.
* An entry printed with a newline inside breaks the lines of a compiled lexicon: `LexCompile.NewlinesExactIff`.
* The receiver drops the byte at which a key that had begun breaks off, instead of trying it as the start of a key, so
  the end is missed exactly when the data leaves the sender's automaton off its start: `StuffedFile.ReceivedIff`.
* With bad segments ignored, a good segment is filed under the wrong name unless the next segment that is not left out
  has the name of the one after it: `DiphoneIndex.FiledRightIff`.
* The last segments are left without an end time when the first diphone is missing, or two in a row are:
  `UnitTiming.AllTimedIff`.
* A code that is too large is replaced by two bytes that are not the replacement character:
  `Utf8.ReplacementWrong`; codes that do not survive the trip are exactly zero and those that are no scalar value:
  `Utf8.DecodedIff`. Not all bytes after the first are tested when decoding, so that a letter can pass for one
  (`Utf8.LetterAccepted`); the accepted sequences that are rightly so are told by `Utf8.RewrittenIff`.
* The join cost table is allocated with `n*n/2-n` bytes. Up to 65537 instances, where the place formula is good
  (`JoinCost.OnePlaceEachIff`), that is enough only for `n <= 1`, and for `n >= 65536`, where the product wraps:
  `JoinCost.AllocationSuffices`. The model allocates the triangle.
* A comment line at the top level leaves the client in the middle of an expression, which whitespace directly after it
  completes: `ClientFraming.InputFramedIff`.
* A silence between two vowels puts them in one syllable (`Syllables.SilenceHidesVowel`); elsewhere it does no harm:
  `Syllables.OneVowelEachIff`. A consonant whose name starts like a vowel can get a syllable to itself:
  `Syllables.VowelLetterMisleads`.
* A line to the spooler that merely begins with "close" is never acknowledged, and a close with a blank before it twice:
  `SpoolerRuns.LineAcknowledgedIff`. One of each kind leaves the total right, so `SpoolerRuns.RunAcknowledges` counts them.

The comment at the head of the back-up-and-scan step in `lexicon.cc` says that the first headword match is
returned when no features match; at the end of the file the code does not do so, and the model follows the code.

## Model

| member | source | states |
|---|---|---|
| `LexFile.LexFile.Resync` | src/modules/Lexicon/lexicon.cc:378-389 | the entry that a probe at a byte reads is the one after the first newline at or after that byte |
| `LexFile.AnswerUnique` | src/modules/Lexicon/lexicon.cc:396-440 | the outcome of a lookup is determined by the file, the word and the features |
| `LexFile.AnswerIntendedIff` | src/modules/Lexicon/lexicon.cc:396-440 | the answer is the first full match, else the first headword match, else nothing, exactly unless the word's entries end the file and none has the features |
| `LexFile.LastGroupLost` | src/modules/Lexicon/lexicon.cc:435-436 | a file of one entry whose headword matches and whose features do not, for which nothing is found |
| `LexFile.CmpMonotone` | src/modules/Lexicon/lexicon.cc:391-394 | a word below an entry is below all later ones, and above one is above all earlier ones |
| `LexFile.FeaturesMatchIff` | src/modules/Lexicon/lexicon.cc:442-465 | a feature asked for alone must be all there is, and of a list asked for each must be among those there are |
| `LexCache.InitialCache` | src/modules/Lexicon/lexicon.cc:298-300 | the cache that a freshly opened lexicon starts with, one leaf for the whole file, meets the invariant |
| `LexCache.BetweenVisits` | src/modules/Lexicon/lexicon.cc:333-376 | halving and the order of the file alone fix which words' searches visit an interval |
| `LexCache.LookupBetween` | src/modules/Lexicon/lexicon.cc:208-229 | the cache gives a word an interval whose end headwords lie strictly on either side of it |
| `LexCache.CacheTransparent` | src/modules/Lexicon/lexicon.cc:208-229 | the interval that the cache gives for any word is one that the uncached search for that word visits |
| `LexCache.AddFinds` | src/modules/Lexicon/lexicon.cc:231-252 | an added headword is found afterwards, and so is every earlier one |
| `LexCache.AddRouted` | src/modules/Lexicon/lexicon.cc:231-252 | a narrow interval may replace an older and wider leaf: the words routed to each node still lie between the headwords at its ends |
| `LexCache.AddKeepsCache` | src/modules/Lexicon/lexicon.cc:231-252 | adding a probed interval keeps the whole invariant, and both halves can be split in turn |
| `LexCache.GrownKeepsCache` | src/modules/Lexicon/lexicon.cc:333-376 | a whole search, with all the intervals it adds, keeps the invariant |
| `LexCache.RunsKeepCache` | src/modules/Lexicon/lexicon.cc:190-206 | so does any sequence of lookups from an opened lexicon |
| `LexCache.TransparentOverRuns` | src/modules/Lexicon/lexicon.cc:190-206 | after any sequence of lookups, the cache gives for any word an interval that the uncached search visits |
| `LexCache.LongLinesHideNothing` | src/modules/Lexicon/lexicon.cc:342-351 | lines of nine bytes or more are enough: then no interval on which the search gives up hides a word |
| `LexCache.SearchStep` | src/modules/Lexicon/lexicon.cc:333-376 | each probe of an interval of ten bytes or more moves to a shorter one, come to by halving, that still lies around the place of the word |
| `LexCache.ReadIff` | src/modules/Lexicon/lexicon.cc:333-376 | the search for a word reads an entry of it if and only if no interval of fewer than ten bytes hides it |
| `LexCache.NoneMissedIff` | src/modules/Lexicon/lexicon.cc:333-376 | in a whole file, no word is missed if and only if the places of the newlines and the order of the words hide none, which can be told before any lookup |
| `LexCache.VisitsReads` | src/modules/Lexicon/lexicon.cc:333-376 | from any interval on its way, a search reads what it reads from the start |
| `LexCache.CachedReads` | src/modules/Lexicon/lexicon.cc:190-206 | whatever the length of the lines, the search from the cached interval reads an entry of the word if and only if the search of the whole file does |
| `LexCache.EightByteLineHides` | src/modules/Lexicon/lexicon.cc:342-351 | a file with a line of eight bytes whose second entry is never found |
| `Lexicon.CacheNode.BlLookupCache` | src/modules/Lexicon/lexicon.cc:208-229 | the walk down the cells gives the interval and the depth of the tree they stand for |
| `Lexicon.CacheNode.AddToCache` | src/modules/Lexicon/lexicon.cc:231-252 | splitting a cell in place changes the tree as the addition does, and no cell outside it |
| `Lexicon.MatchFeatures` | src/modules/Lexicon/lexicon.cc:442-465 | the nested loops decide whether every required feature is an actual one |
| `Lexicon.ScanStep` | src/modules/Lexicon/lexicon.cc:420-437 | one turn of the forward scan ends with an answer to the lookup or keeps what the scan has established |
| `Lexicon.Lexicon.constructor` | src/modules/Lexicon/lexicon.cc:254-302 | a lexicon opens with a cache that meets the invariant, whatever the file |
| `Lexicon.Lexicon.BlFindNextEntry` | src/modules/Lexicon/lexicon.cc:378-389 | skipping byte by byte to a newline arrives at the entry that the offset stands for |
| `Lexicon.Lexicon.BlFindActualEntry` | src/modules/Lexicon/lexicon.cc:396-440 | backing up and scanning gives the answer of a scan of the whole file, and the list of matches |
| `Lexicon.Lexicon.ScanEntries` | src/modules/Lexicon/lexicon.cc:419-440 | the forward scan from before the word's entries gives the answer, the matches latest first, and their number |
| `Lexicon.Lexicon.Probe` | src/modules/Lexicon/lexicon.cc:353-359 | a probe adds to the cache only near the top and on wide intervals |
| `Lexicon.Lexicon.BlBsearch` | src/modules/Lexicon/lexicon.cc:333-376 | the search from any interval ends; it answers as a scan of the whole file would if it reads an entry of the word, and otherwise finds nothing and lists nothing |
| `Lexicon.Lexicon.LookupComplex` | src/modules/Lexicon/lexicon.cc:190-206 | whatever was looked up before, the lookup ends as the search of the whole file would and keeps the cache sound |
| `Lexicon.OutcomeAnswersIff` | src/modules/Lexicon/lexicon.cc:190-206 | the lookup gives what a scan of the file gives if and only if the word is not there or no interval hides it |
| `Lexicon.OutcomeIntendedIff` | src/modules/Lexicon/lexicon.cc:396-440 | it gives the first full match, else the first headword match, else nothing, if and only if moreover the word does not end the file without an entry that has the features |
| `Lexicon.MatchAddenda` | src/modules/Lexicon/lexicon.cc:140-145 | the addenda found for a word, collected in reverse |
| `Lexicon.AddendaFoundAll` | src/modules/Lexicon/lexicon.cc:140-145 | these are all the addenda that compare equal to the word and no other, each once and in order |
| `Lexicon.Lexicon.LookupAll` | src/modules/Lexicon/lexicon.cc:137-150 | exactly the addenda that compare equal to the word, by their places in order, then each entry of the word that the lookup comes to, each once and in order |
| `Lexicon.ListedAllIff` | src/modules/Lexicon/lexicon.cc:137-150 | these are all entries of the word if and only if it is not hidden and none but its last has the features looked for, the number -1 |
| `WordOrder.CompareByIsTotalPreorder` | src/modules/Lexicon/lexicon.cc:391-394 | comparison by folded characters is a total preorder |
| `LexCompile.EntryCompareTies` | src/modules/Lexicon/complex.cc:61-78 | entries tie only when they print the same |
| `LexCompile.EntryCompareIsTotalPreorder` | src/modules/Lexicon/complex.cc:61-78 | the comparison chain orders every set of entries |
| `LexCompile.SortedUnique` | src/modules/Lexicon/complex.cc:117-121 | a collection has one sorted arrangement when only equal elements tie |
| `LexCompile.CompileDeterministic` | src/modules/Lexicon/complex.cc:102-133 | however the entries are listed, and whichever sort is used, the same file is written |
| `LexCompile.HomographsContiguous` | src/modules/Lexicon/complex.cc:117-133 | entries whose headwords fold alike are next to each other |
| `LexCompile.HomographsOrdered` | src/modules/Lexicon/complex.cc:61-78 | among themselves they come by part of speech, then by the headword as written, then by the whole entry |
| `LexCompile.NewlinesPlaced` | src/modules/Lexicon/complex.cc:130-133 | each place computed for a newline holds one, and the last byte is one of them |
| `LexCompile.LineIs` | src/modules/Lexicon/complex.cc:130-133 | between one place and the next is the entry of that line, in sorted order |
| `LexCompile.MagicFirst` | src/modules/Lexicon/complex.cc:130-133 | the first line is the magic number |
| `LexCompile.NewlinesExactIff` | src/modules/Lexicon/complex.cc:130-133 | the bytes that are newlines are exactly those if and only if no entry is printed with a newline inside |
| `LexCompile.CompiledIsValid` | src/modules/Lexicon/complex.cc:117-133 | the written file has the order and the length that the search relies on, and its newlines are where the search takes them to be if and only if every entry is printed on one line |
| `LexCompile.CompiledLongLines` | src/modules/Lexicon/complex.cc:130-133 | its lines are long enough for the search exactly when every printed entry has eight characters or more |
| `LtsPatterns.ItemMatchIff` | src/modules/Lexicon/lts_rules.cc:332-349 | a symbol matches an item that it is or that names a set with it in; of sets with one name the first counts |
| `LtsPatterns.MatchSound` | src/modules/Lexicon/lts_rules.cc:283-306 | when a context matches, some prefix of it is in the language of the pattern |
| `LtsPatterns.MatchComplete` | src/modules/Lexicon/lts_rules.cc:283-306 | when some prefix is in the language, backtracking finds a match |
| `LtsPatterns.ContextMatchExact` | src/modules/Lexicon/lts_rules.cc:283-306 | a context matches if and only if some prefix of it is in the language of the pattern |
| `LtsPatterns.FixPostfixOps` | src/modules/Lexicon/lts_rules.cc:185-207 | swapping each operator with the cell after it, in place |
| `LtsPatterns.FixedMeansReversed` | src/modules/Lexicon/lts_rules.cc:185-207 | repairing the reversed tokens of a pattern gives the pattern of its units in reverse |
| `LtsPatterns.InLangReversed` | src/modules/Lexicon/lts_rules.cc:185-207 | the reversed units describe the reversed texts |
| `LtsPatterns.LeftMatchExact` | src/modules/Lexicon/lts_rules.cc:272-281 | a left context matches if and only if some suffix of the text before the cursor is in the language of the pattern as written |
| `LtsRules.SpellsUnique` | src/modules/Lexicon/lts_rules.cc:123-157 | a list of tokens spells at most one rule |
| `LtsRules.NormalizeRule` | src/modules/Lexicon/lts_rules.cc:113-173 | a rule is accepted, and stored with its left context repaired, exactly when it is complete and its centre is not empty |
| `LtsRules.ThisMatch` | src/modules/Lexicon/lts_rules.cc:319-330 | what is left after the centre, or nothing when it does not match |
| `LtsRules.MatchRule` | src/modules/Lexicon/lts_rules.cc:272-281 | a rule matches if and only if its centre is next with something after it, and both contexts as written describe the text around it |
| `LtsRewrite.Rewrite` | src/modules/Lexicon/lts_rules.cc:251-270 | the first rule that applies is used, and its centre taken off |
| `LtsRewrite.Turn` | src/modules/Lexicon/lts_rules.cc:221-230 | one turn of the loop moves the cursor past the centre of the first rule that applies, and the two sides of the cursor still make up the text |
| `LtsRewrite.Apply` | src/modules/Lexicon/lts_rules.cc:209-232 | the loop ends and gives the right-hand sides of the first rules that apply, with the reversed left context and the remainder always making up the word between its boundary marks |
| `LtsRewrite.AppliesOnAdvances` | src/modules/Lexicon/lts_rules.cc:159-169 | rules with centres always move the cursor and never past the closing mark |
| `LtsRewrite.DeriveSegments` | src/modules/Lexicon/lts_rules.cc:209-232 | what is rewritten is cut in order and without gaps into centres of rules that are first to apply |
| `LtsRewrite.WholeWordRewritten` | src/modules/Lexicon/lts_rules.cc:209-232 | a word without boundary marks is consumed whole, and the result is the right-hand sides of those rules in order |
| `LtsRewrite.RewrittenIff` | src/modules/Lexicon/lts_rules.cc:209-232 | for the rules themselves: a word is rewritten to a result if and only if it can be cut whole into centres of rules, each the first to apply between what stands before and after, with that result as their right-hand sides |
| `DiphoneIndex.FiledItems` | src/modules/MultiSyn/DiphoneVoiceModule.cc:391-399 | filing adds the segment at the end of its own list and changes no other |
| `DiphoneIndex.FileOne` | src/modules/MultiSyn/DiphoneVoiceModule.cc:350-402 | one segment filed, or left out when flagged, keeps the catalogue that of the segments seen |
| `DiphoneIndex.FiledFromKeeps` | src/modules/MultiSyn/DiphoneVoiceModule.cc:337-404 | filing a whole utterance backwards adds to each name exactly the segments that belong under it |
| `DiphoneIndex.AddsAllMember` | src/modules/MultiSyn/DiphoneVoiceModule.cc:337-404 | a segment is filed under a name if and only if it belongs there |
| `DiphoneIndex.AddsAllInOrder` | src/modules/MultiSyn/DiphoneVoiceModule.cc:337-404 | no segment is filed twice: utterances go forward, segments backward |
| `DiphoneIndex.KeptAllUnflagged` | src/modules/MultiSyn/DiphoneVoiceModule.cc:695-707 | with nothing ignored, the units are the segments of all utterances but the last of each |
| `DiphoneIndex.PairedName` | src/modules/MultiSyn/DiphoneVoiceModule.cc:363-401 | the second half of the name a segment is filed under is that of the next segment not left out |
| `DiphoneIndex.FiledRightIff` | src/modules/MultiSyn/DiphoneVoiceModule.cc:363-380 | a segment is filed under the diphone it starts if and only if the segment it is paired with, the next that is not left out, has the name of the one after it |
| `DiphoneIndex.IgnoringBadMisfiles` | src/modules/MultiSyn/DiphoneVoiceModule.cc:363-380 | an utterance of three segments in which a good one is misfiled |
| `DiphoneVoice.DiphoneVoiceModule.AddToCatalogue` | src/modules/MultiSyn/DiphoneVoiceModule.cc:337-404 | the loop from the last segment back files the whole utterance and counts what is ignored |
| `DiphoneVoice.DiphoneVoiceModule.AddUtterance` | src/modules/MultiSyn/DiphoneVoiceModule.cc:337-404 | the catalogue stays exactly that of the database, and each segment but the last is filed or counted as ignored |
| `DiphoneVoice.DiphoneVoiceModule.NumModuleUnits` | src/modules/MultiSyn/DiphoneVoiceModule.cc:695-707 | the lengths of the lists add up to the number of segments filed |
| `DiphoneVoice.DiphoneVoiceModule.NumAvailableCandidates` | src/modules/MultiSyn/DiphoneVoiceModule.cc:710-721 | the number of candidates is the length of the list under the name, none when there is no list |
| `DiphoneVoice.ItemListToCandidateList` | src/modules/MultiSyn/DiphoneVoiceModule.cc:564-601 | prepending builds a chain of new nodes with the list's segments in reverse, its head and its tail |
| `DiphoneVoice.DiphoneVoiceModule.GetCandidateList` | src/modules/MultiSyn/DiphoneVoiceModule.cc:603-628 | the chain has a candidate for each segment under the name and the ends are untouched when there is none |
| `DiphoneVoice.Splice` | src/modules/MultiSyn/DiphoneUnitVoice.cc:418-422 | writing one link joins two chains and keeps both contents |
| `DiphoneVoice.GetCandidates` | src/modules/MultiSyn/DiphoneUnitVoice.cc:388-436 | the spliced chain holds the candidates of every module and ends where it should |
| `DiphoneVoice.CandidateExact` | src/modules/MultiSyn/DiphoneUnitVoice.cc:388-436 | a segment is a candidate if and only if it belongs under the name in its own module's database |
| `DiphoneVoice.CandidatesDistinct` | src/modules/MultiSyn/DiphoneUnitVoice.cc:388-436 | no segment is a candidate twice |
| `DiphoneVoice.BelongsUnflagged` | src/modules/MultiSyn/DiphoneVoiceModule.cc:337-404 | with nothing ignored, belonging under a name is having, with the next segment, that diphone name |
| `DiphoneVoice.UnitAvailable` | src/modules/MultiSyn/DiphoneUnitVoice.cc:733-742 | a unit is available if and only if there is a candidate |
| `DiphoneVoice.NumAvailableCandidates` | src/modules/MultiSyn/DiphoneUnitVoice.cc:744-753 | the sum over the modules is the number of candidates |
| `UnitTiming.VisitSegment` | src/modules/MultiSyn/DiphoneUnitVoice.cc:482-580 | the loop's body: a silence where words do not join, a unit or flags for a missing one |
| `UnitTiming.BuildUnits` | src/modules/MultiSyn/DiphoneUnitVoice.cc:477-580 | the loop ends though it inserts segments; the segments are the given ones in order, with one silence between two of them exactly when their words are there and differ and the diphone of their names is missing; the units are one for each diphone there is, named after it unless backed off, and marked on the sides where one is missing |
| `UnitTiming.SilencesPlaced` | src/modules/MultiSyn/DiphoneUnitVoice.cc:482-520 | there is an increasing map of the given segments into the result, with one silence in each gap that calls for it and nothing in the others |
| `UnitTiming.UnitsAreThose` | src/modules/MultiSyn/DiphoneUnitVoice.cc:541-580 | the units are those of the available names in order, each marked left when the name before is missing and right when the one after is |
| `UnitTiming.RightlyBuilt` | src/modules/MultiSyn/DiphoneUnitVoice.cc:482-580 | what the loop builds has both, for every voice and list of segments |
| `UnitTiming.ParseDiphoneTimes` | src/modules/MultiSyn/DiphoneUnitVoice.cc:79-111 | the walk over both lists gives the reached segments their end times, leaves the others as they were, and gives each unit its own |
| `UnitTiming.TimesOrdered` | src/modules/MultiSyn/DiphoneUnitVoice.cc:79-111 | end times never decrease, and the last is the sum of the durations |
| `UnitTiming.TimesAtUnit` | src/modules/MultiSyn/DiphoneUnitVoice.cc:89-98 | the segment paired with a unit ends at the unit's middle, and the next one, when the unit is stretched over it, at the unit's end |
| `UnitTiming.AllTimedIff` | src/modules/MultiSyn/DiphoneUnitVoice.cc:79-111 | the units never outrun the segments, and every segment gets an end time if and only if the first diphone is there and no two in a row are missing |
| `UnitTiming.UnitsAligned` | src/modules/MultiSyn/DiphoneUnitVoice.cc:563-579 | then each unit is paired with the segment it was made for |
| `ClientFraming.CompletionsAppend` | src/main/festival_client.cc:345-417 | the completions of a text are those of its parts in turn |
| `ClientFraming.UsualList` | src/main/festival_client.cc:345-417 | a list printed in the usual way, a blank between every two elements and none before the bracket, is among the expressions printed |
| `ClientFraming.PrintedPasses` | src/main/festival_client.cc:345-417 | a printed expression of any depth, with any whitespace or none between and around the elements of its lists, is read through without a completion and with the depth restored |
| `ClientFraming.ExpressionFramed` | src/main/festival_client.cc:345-417 | an expression is complete exactly at the whitespace after it and never earlier, with the depth back at 0 |
| `ClientFraming.InputFramed` | src/main/festival_client.cc:279-343 | the completions of an input of expressions, comment lines and blanks are the ends of its expressions, and each blank that directly follows a comment line |
| `ClientFraming.InputFramedIff` | src/main/festival_client.cc:279-343 | there is one completion for each expression, at its own end, and no other, if and only if no comment line is directly followed by whitespace |
| `ClientFraming.TopLevelComment` | src/main/festival_client.cc:369-375 | after a comment at the top level, the next character signals a completion exactly when it is whitespace |
| `ClientFraming.UnescapeEscape` | src/main/festival_client.cc:254-259 | taking the backslashes out again gives the text |
| `TextToWave.Framer.NewState` | src/main/festival_client.cc:345-417 | the chain of tests over the state number and the depth is the automaton |
| `TextToWave.AwaitAnswer` | src/main/festival_client.cc:304-341 | the acknowledgements up to the first end or error are read, and what it reads last is one of these |
| `TextToWave.AfterFirstEnd` | src/main/festival_client.cc:304-341 | only an end or an error ends the wait: waveforms, Lisp values and unknown answers before it do not |
| `TextToWave.CopyToServer` | src/main/festival_client.cc:279-343 | every character is sent in order, and one answer awaited at each completion |
| `TextToWave.ReadsEveryAnswer` | src/main/festival_client.cc:304-341 | against a server that answers each command once, every answer is read and nothing beyond |
| `TextToWave.CopyEscaped` | src/main/festival_client.cc:254-259 | the copying loop escapes the text |
| `TextToWave.TtwFile` | src/main/festival_client.cc:213-277 | what is written are the commands with the escaped text between quotes |
| `TextToWave.TextFramed` | src/main/festival_client.cc:213-277 | for every text, and every mode without quotes or backslashes, completion is signalled once for each command, at its end and never inside the text |
| `StuffedFile.FollowsSender` | examples/festival_client.c:287-317 | over stuffed data the receiver keeps the sender's automaton and holds exactly the payload |
| `StuffedFile.KeyEnds` | examples/festival_client.c:287-317 | the key, read from its start, stops the receiver and leaves what follows |
| `StuffedFile.KeyMissed` | examples/festival_client.c:307-314 | a key that comes while another seems to have begun is taken for data |
| `StuffedFile.ReceivedIff` | examples/festival_client.c:273-319 | the payload is received and the key stopped at if and only if the payload leaves the automaton at its start |
| `StuffedFile.ReceiveToBuff` | examples/festival_client.c:273-319 | every write stays in the growing buffer, which then holds what the automaton received, with room for one more |
| `StuffedFile.ClientAcceptSExpr` | examples/festival_client.c:228-237 | the terminator fits and comes right after the data |
| `NumberWords.ReadBack` | src/modules/Text/token.cc:538-633 | splitting at the last million, thousand and hundred reads the number back, for every integer in both ways of spelling |
| `NumberWords.LastWord` | src/modules/Text/token.cc:538-633 | the words are ones there are, and the last is neither "and" nor "minus" |
| `NumberWords.AndStands` | src/modules/Text/token.cc:538-633 | for every integer and in both ways of spelling, "and" stands exactly where it belongs: after a hundred, when not American and something below it follows in its group, and after a thousand, when what follows has no hundred |
| `NumberWords.SpellingIff` | src/modules/Text/token.cc:538-633 | there is one way to say a number: a list of words is that of a number if and only if it is put together from tens, hundreds, thousands and millions as numbers are, and reads that number |
| `NumberTexts.ReadTextsBack` | src/modules/Text/token.cc:538-633 | the round trip goes through the written words |
| `NumberTexts.OrdinalExpected` | src/modules/Text/token.cc:437-479 | the tests on the last word give each number word its ordinal |
| `NumberTexts.OrdinalReadBack` | src/modules/Text/token.cc:437-479 | the ordinal of a word tells the word |
| `NumberTexts.SayNumAsOrdinal` | src/modules/Text/token.cc:428-482 | only the last word is overwritten, and it can be put back |
| `NumberTexts.OrdinalsDistinct` | src/modules/Text/token.cc:428-482 | different numbers have different ordinals |
| `JoinCost.SlotInjective` | src/modules/MultiSyn/EST_JoinCostCache.cc:85-119 | no two pairs share a place |
| `JoinCost.SlotOnto` | src/modules/MultiSyn/EST_JoinCostCache.cc:85-119 | every place of the triangle is that of a pair of instances |
| `JoinCost.OnePlaceEachIff` | src/modules/MultiSyn/EST_JoinCostCache.cc:85-119 | in 32-bit words the places differ if and only if there are at most 65537 instances |
| `JoinCost.AllocationSuffices` | src/modules/MultiSyn/EST_JoinCostCache.cc:58-66 | for up to 65537 instances, the size computed in 32-bit words holds all pairs if and only if there is at most one instance or at least 65536, where the product wraps |
| `JoinCost.Rint` | src/modules/MultiSyn/EST_JoinCostCache.cc:154-154 | rounding is to a nearest integer, and to the even one at a half |
| `JoinCost.QuantisedNear` | src/modules/MultiSyn/EST_JoinCostCache.cc:136-154 | a stored cost is within one level of the cost held between 0 and 1, and within half a level away from the ends |
| `JoinCost.QuantisedInOrder` | src/modules/MultiSyn/EST_JoinCostCache.cc:136-154 | quantisation keeps the order of costs |
| `JoinCost.JoinCostCache.Val` | src/modules/MultiSyn/EST_JoinCostCache.cc:85-98 | the value of a pair is the same both ways round, and indices above the number of instances are an error |
| `JoinCost.JoinCostCache.SetVal` | src/modules/MultiSyn/EST_JoinCostCache.cc:101-119 | setting a pair changes that pair, both ways round, and no other |
| `JoinCost.JoinCostCache.ComputeAndCache` | src/modules/MultiSyn/EST_JoinCostCache.cc:129-165 | afterwards every pair of the list is cached within one level of its cost and the others are as before |
| `Syllables.LexSyllabify` | src/modules/Lexicon/lex_aux.cc:50-68 | the loop gives the cut syllables, and stress 1 to the first only |
| `Syllables.CutConserves` | src/modules/Lexicon/lex_aux.cc:50-68 | for every phone list and phone set, the syllables in turn are the phones |
| `Syllables.CutIff` | src/modules/Lexicon/lex_aux.cc:152-175 | where names do not mislead and no silence lies between vowels, a list of syllables is the cut if and only if each ends at the first place after its vowel, with a vowel still to come, before a vowel or where sonority does not fall from the phone before to the phone after |
| `Syllables.ContainsVowelIff` | src/modules/Lexicon/lex_aux.cc:177-193 | where names do not mislead, the test finds a vowel if and only if there is one with no silence before it |
| `Syllables.CutOneVowel` | src/modules/Lexicon/lex_aux.cc:152-175 | from any open syllable whose vowel has no silence between it and the next, the break rule closes each syllable with exactly one vowel |
| `Syllables.BrokenSpoils` | src/modules/Lexicon/lex_aux.cc:152-175 | a silence between two vowels, anywhere ahead, leads to a syllable that has not exactly one vowel |
| `Syllables.OneVowelEachIff` | src/modules/Lexicon/lex_aux.cc:50-68 | where names do not mislead, each syllable has exactly one vowel if and only if there is no phone, or there is a vowel and no silence lies between two vowels |
| `Syllables.AsManyAsVowelsIff` | src/modules/Lexicon/lex_aux.cc:50-68 | with a vowel, syllables are never more than vowels, and as many if and only if no silence lies between two vowels |
| `Syllables.SilenceHidesVowel` | src/modules/Lexicon/lex_aux.cc:177-193 | two vowels with a silence between them share a syllable |
| `Syllables.VowelLetterMisleads` | src/modules/Lexicon/lex_aux.cc:177-193 | a consonant whose name starts like a vowel makes a syllable without a vowel |
| `Utf8.PackedLengthIff` | src/arch/festival/festival.cc:397-401 | the two bits picked out of a constant are the length less one that the range of the first byte gives |
| `Utf8.Utf8Explode` | src/arch/festival/festival.cc:403-419 | the pointer loop takes a text apart by the lengths its first bytes promise |
| `Utf8.EncodesIff` | src/arch/festival/festival.cc:481-536 | what is written for a code up to 0x1FFFFF, and only that, is what the table of section 3 of RFC 3629 has for it: its digits in base 64, highest first, on the marks of the bytes |
| `Utf8.DecodedIff` | src/arch/festival/festival.cc:422-474 | decoding gives a written code back if and only if it is a scalar value other than zero |
| `Utf8.ReplacementWrong` | src/arch/festival/festival.cc:493-497 | what replaces a code that is too large does not decode to the replacement character |
| `Utf8.ReplacedIff` | src/arch/festival/festival.cc:493-497 | exactly the codes above 0x200000 are replaced, always by the same two bytes |
| `Utf8.Utf8Chr` | src/arch/festival/festival.cc:481-536 | filling the buffer backwards leaves the bytes of the code and the terminator, and no other byte changed |
| `Utf8.OrdIsScalar` | src/arch/festival/festival.cc:422-474 | whatever is accepted decodes to a scalar value |
| `Utf8.AcceptedShape` | src/arch/festival/festival.cc:422-474 | what is accepted has the length that its code needs, and of three or four bytes the last is a continuation byte |
| `Utf8.RewrittenIff` | src/arch/festival/festival.cc:422-474 | an accepted sequence is what its code is written as if and only if its first byte is one that a code is written with and all bytes after it are continuation bytes |
| `Utf8.LetterAccepted` | src/arch/festival/festival.cc:422-474 | a sequence whose second byte is a letter is accepted |
| `Utf8.WrittenReadsBack` | src/arch/festival/festival.cc:403-536 | writing a sequence of codes, splitting it and decoding each piece gives the sequence back |
| `Utf8.ReadsBackIff` | src/arch/festival/festival.cc:403-536 | it does so for exactly the sequences of non-zero scalar values |
| `Chunker.TtsChunkStream` | src/modules/Text/text.cc:221-258 | growing the utterance in place and taking its last token off again gives the chunks, with the token function applied to each token once |
| `Chunker.ChunkConserves` | src/modules/Text/text.cc:221-258 | the utterances handed on, then the open one, are the tokens there were and the stream |
| `Chunker.ChunkComposes` | src/modules/Text/text.cc:221-258 | chunking two streams in turn is chunking one after the other joined |
| `Chunker.ChunkLocal` | src/modules/Text/text.cc:221-258 | utterances handed on before play no part |
| `Chunker.ChunkWellCut` | src/modules/Text/text.cc:221-258 | each utterance handed on has tokens and ends where the predictor, with the next token attached, first says so |
| `Chunker.WellCutIsChunk` | src/modules/Text/text.cc:221-258 | there is only one such way to cut the tokens |
| `CommandQueue.CQueue.Push` | src/main/audsp.cc:107-122 | pushing appends to the queue, and follows no pointer to a deleted item though the tail may dangle |
| `CommandQueue.CQueue.Pop` | src/main/audsp.cc:124-141 | popping takes the first command off and deletes its item alone |
| `CommandQueue.CQueue.Length` | src/main/audsp.cc:153-163 | the walk counts the commands |
| `CommandQueue.CQueue.Clear` | src/main/audsp.cc:165-178 | all files are unlinked in order, and all items deleted |
| `SpoolerRuns.InputKeepsSafe` | src/main/audsp.cc:260-294 | reading a line, whatever it says, keeps the spooler safe |
| `SpoolerRuns.OutputKeepsSafe` | src/main/audsp.cc:411-435 | waiting for a player or starting the next keeps it safe |
| `SpoolerRuns.RunIsSafe` | src/main/audsp.cc:219-236 | in every run: commands are dealt with in arrival order, at most one player is running, its process is the one that would be killed and its file the current one, the queue is within its limit, and the loop ends only with nothing left over |
| `SpoolerRuns.RunArrives` | src/main/audsp.cc:347-409 | in every run, what arrives in the queue is every command of a line read that asks to play, in order, and nothing else |
| `SpoolerRuns.RunEndsIff` | src/main/audsp.cc:260-345 | in every run, input has ended if and only if a line or an end of file read says so, and the last acknowledgement is due if and only if a close was read |
| `SpoolerRuns.RunTries` | src/main/audsp.cc:411-460 | in every run, commands are started or fail as forking goes, in order, the process number kept is that of the last child, and as many players are done as waits succeeded |
| `SpoolerRuns.RunDropsNothing` | src/main/audsp.cc:389-398 | without a shutup nothing is dropped, killed or removed |
| `SpoolerRuns.ShutupKeepsSafe` | src/main/audsp.cc:389-398 | shutting up drops the whole queue and removes its files, and kills the player and removes the file of the last command started if and only if it still runs |
| `SpoolerRuns.RunRemoves` | src/main/audsp.cc:389-398 | in every run, the file of every dropped command is removed |
| `SpoolerRuns.RunAcknowledges` | src/main/audsp.cc:310-345 | in every run, acknowledgements are the lines read, one more for each close with a blank before it, and one less for each other line that begins with close |
| `SpoolerRuns.LineAcknowledgedIff` | src/main/audsp.cc:310-345 | a line is acknowledged exactly once if and only if its first bytes and its first word agree about closing, twice if only the word is close, and never if only the bytes are |
| `SpoolerRuns.AllPlainIff` | src/main/audsp.cc:310-345 | no line of a run is acknowledged twice or never if and only if each line read agrees about closing |
| `SpoolerRuns.CloseLikeLine` | src/main/audsp.cc:338-342 | a line that only begins like a close is not acknowledged |
| `SpoolerRuns.BlankBeforeClose` | src/main/audsp.cc:338-342 | a close with a blank before it is acknowledged twice |
| `SpoolerRuns.RunDrains` | src/main/audsp.cc:219-236 | once input has ended, as many finished waits as there are files and players left end the loop |
| `SpoolerRuns.TidyUpWaits` | src/main/audsp.cc:238-258 | after a close no player is left and every one started has been waited for; without one nothing is waited for |
| `Spooler.AudioSpooler.ProcessCommand` | src/main/audsp.cc:347-409 | each command does to the process what its step says |
| `Spooler.AudioSpooler.CheckNewInput` | src/main/audsp.cc:260-294 | nothing is read while the queue is full or input has ended |
| `Spooler.AudioSpooler.CheckNewOutput` | src/main/audsp.cc:411-435 | a player is waited for before the next is started |
| `Spooler.AudioSpooler.Loop` | src/main/audsp.cc:219-225 | the main loop is the run of its steps, and safe |
| `Spooler.AudioSpooler.TidyUp` | src/main/audsp.cc:238-258 | after a close, every player is waited for and the close acknowledged |

## Left out

- Reads past the last entry of a lexicon: taken to compare above every word. What the Lisp reader gives there is not part of this model.
- Reading an entry: each line is one entry that the reader takes whole; how it parses is not modelled, and in LexCompile what the features of an entry read back as is a parameter.
- The comparison of headwords in LexFile is any total preorder; LexCompile uses comparison by folded characters. The rest of the Speech Tools' `fcompare` is not modelled.
- The older lexicon format, `MNCM`, and the choice between lexicon, addenda and letter-to-sound rules in `lookup`.
- Sorting in LexCompile: any sorted rearrangement, since the library sort is not shown.
- LtsRules.NormalizeRule: asks that no left context starts with an operator, which the code reports and then reads past its end.
- Items printed as `nil` in patterns and sets, which an exhausted context would match: excluded, as NilFree and Usable say.
- The alphabet that reading rules collects, and error output.
- Target costs, rescoring and the search over candidates: each candidate is only the segment it stands for.
- Backing off from a missing diphone: a function that ends with an available name or none; the rule loop that computes it depends on its rules.
- The note of the name a unit was first asked for under, and the warnings about missing diphones.
- Joining of units: a unit's times are given by the time to its middle and to its end.
- Sockets, pipes, processes and files: bytes, and events given to the step functions.
- The bytes of the stuffing sender: given as a specification, since the sender is in the Speech Tools.
- NumberWords.ReadBack: over unbounded integers; the code's argument is a C int, whose least value it cannot negate.
- The year reader and the number tokens recognised by regular expressions.
- JoinCost.JoinCostCache.ComputeAndCache: costs are real numbers, so rounding of the limits to float is not modelled, nor are the features written to the items.
- JoinCost.JoinCostCache.SetVal: the same index as for Val is excluded.
- JoinCost.JoinCostCache.Val: an index equal to the number of instances passes the code's test and reads outside the triangle; it is excluded.
- `lex_syllabify_phstress`, which takes stress marks off phones first.
- Utf8.Utf8Explode: asks that no character is cut short by the end of the text, where the code would run past the terminator.
- Utf8.Utf8Chr: the cases for five and six bytes, which no length leads to.
- The options that spooler lines set, and what is played.
- Signal processing, prosody rules, and everything that runs Lisp.
