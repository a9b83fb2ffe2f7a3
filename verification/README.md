# Verified model of the reading-tutor backend

A Dafny 4.11 model of the backend's decision logic, with proofs. It covers how a read-aloud sentence is marked,
how a word is compared character by character, the adaptive reading test and its delivery, the seeding of the school
register, the public traction series, the sentence-band signal, parent onboarding, and the CSV exports.

Check it with `dafny verify dfyconfig.toml`.

| file | what it holds |
|---|---|
| `SentenceAlignment.dfy`, `SentenceAssessment.dfy` | alignment of a transcript with the target words, transposition marking, fusion of engines, the pass decision |
| `CharacterStatus.dfy` | the edit matrix with its match-count tie-break, the edit script, the split of the answer's characters |
| `AserBanks.dfy`, `AserTest.dfy`, `AserDelivery.dfy` | bank rotation, the test's state machine, drawing and redelivery of items over whole runs |
| `MergeCycles.dfy`, `RegisterSeed.dfy`, `RegisterRun.dfy` | breaking merge cycles, the validating pass and the building pass of the register |
| `Calendar.dfy`, `TractionStock.dfy`, `TractionUnits.dfy`, `TractionPassing.dfy`, `TractionDaily.dfy`, `TractionMonths.dfy` | calendar dates, the daily sweeps, the monthly counts and projection |
| `SentenceBand.dfy` | lessons seen through the newest 18 rows |
| `OnboardingMachine.dfy`, `OnboardingTurns.dfy`, `OnboardingService.dfy`, `AnswerMatch.dfy` | the state machine, reading replies back from snapshots, the turn and rollback protocol, spoken numbers |
| `InteractionsCsv.dfy`, `CsvTruncation.dfy` | the CSV printer and a reader to prove it against; exports cut off anywhere |
| `Options.dfy`, `Numerals.dfy`, `StableSort.dfy` | small shared definitions |

How the source is read into the model:

- Loops that fill arrays and maps are methods with the same loops, proved equal to recursive functions; the properties
  are then lemmas about those functions. `Pass1Accumulator`, `OnboardingStore` and `GeoTable` are classes with the
  fields the source updates.
- Alignment costs are doubled (0, 1, 2 for 0, 0.5, 1). Halves are exact in doubles, so sums and equality tests agree.
- Library text work (normalization, word marking, tokenizing, akshara distance) is a record of arbitrary deterministic
  functions, `Judge`. Nothing is assumed of them.
- Random draws are parameters, and every statement holds for all of them. Queries are given sequences or maps.
- Words in `CharacterStatus.dfy` are sequences of UTF-16 units, as the source indexes them.
- The lesson machine behind the letter test is an environment: its counting rule is modelled, and it is taken to count
  only letters that are pending and to leave a passed loop on the word it was handed.
- The number lexicon is arbitrary except that no word plays two roles and none is a digit string (`Sane`), which the
  source's word tables satisfy.
- An entity of the register is known by tier and code, where the table uses generated ids.

Where the code differs from what its comments or neighbours suggest. For a property that fails, the exact condition is
proved for all inputs:

- A misread character is reported as incorrect only if it is a single UTF-16 unit: the edit script names single units
  while the answer's characters are compared as code points (`MisreadsAreReported`, `UnreadEmojiIsReportedCorrect`).
- A window of 18 rows can decide otherwise than the full history (`WindowDecidesAsHistory`, `OverlookedHistory`).
- Restarting over a finished onboarding whose snapshot no longer restores leaves permission and birth year set
  (`TurnKeepsSound`, `RestartThatBreaksTheColumns`).
- An age shown for a past onboarding turn is exact only when the row was stored in the year of the reply
  (`AgeRecovery`).
- Formula hardening is not injective: `=x` and `'=x` print alike (`HardeningCollides`, `FormulaAndItsQuotedForm`).
- A cut export can read as finished if a row imitates the footer, which the timestamps it prints rule out
  (`CutExportsLookUnfinished`, `DatedExportsAreSafe`).
- Badly formatted register rows are collected as errors and then filtered out of the report by their message, so they
  never reject it (`ListErrors`, `Finish`).
- The two missing-parent errors of the first pass can never be reported (`ParentsAreTouched`), and the "unreachable"
  comments on the two exhausted banks are right (`DeliveryIsSound`).

## Model

| member | source | states |
|---|---|---|
| `SentenceAlignment.MinCostIsLeast` | src/literacy/literacy-lesson/sentence-assessment.ts:236-265 | no monotone alignment of targets with tokens, insertions priced by the target before them, is cheaper than the matrix entry |
| `SentenceAlignment.TracebackIsOptimal` | src/literacy/literacy-lesson/sentence-assessment.ts:267-315 | from every cell the traceback reaches (0,0) by a monotone alignment whose step costs sum to the entry it started from |
| `SentenceAlignment.TracebackIsPreferred` | src/literacy/literacy-lesson/sentence-assessment.ts:244-315 | among all cheapest alignments the traceback is the one that, read from the end, prefers match over insertion over omission |
| `SentenceAlignment.FillMatrix` | src/literacy/literacy-lesson/sentence-assessment.ts:250-265 | every cell of the filled matrix is the least cost of its prefix pair |
| `SentenceAlignment.CostCountsTheVerdicts` | src/literacy/literacy-lesson/sentence-assessment.ts:36-47 | the cost of any alignment, in halves, is two for each substituted or omitted word and each inserted token that is neither a filler nor a repeat, and one for each close word |
| `SentenceAlignment.ChooseStep` | src/literacy/literacy-lesson/sentence-assessment.ts:272-300 | the equality tests on matrix entries pick the same step as the tie-break by cost |
| `SentenceAlignment.TraceOne` | src/literacy/literacy-lesson/sentence-assessment.ts:271-315 | a traceback turn gets closer to (0,0), writes at most the one slot between the old and new row, and leaves every other result as it was |
| `SentenceAlignment.TraceBackInto` | src/literacy/literacy-lesson/sentence-assessment.ts:267-315 | the results array ends up as the verdicts of the traceback, every slot written |
| `SentenceAlignment.TracedIsVerdicts` | src/literacy/literacy-lesson/sentence-assessment.ts:267-315 | those verdicts are the ones the optimal alignment gives each target |
| `SentenceAlignment.VerdictsFollowTheJudge` | src/literacy/literacy-lesson/sentence-assessment.ts:210-315 | a heard word is correct when the token passes for it, close within akshara distance one, substituted beyond; a word not heard is omitted at its length |
| `SentenceAlignment.WordsAreHeardInOrder` | src/literacy/literacy-lesson/sentence-assessment.ts:267-315 | the heard words are tokens of the transcript in its order, none used twice |
| `SentenceAlignment.AlignTranscript` | src/literacy/literacy-lesson/sentence-assessment.ts:247-319 | the returned array is the traceback verdicts after the transposition pass |
| `SentenceAlignment.AlignmentIsCheapest` | src/literacy/literacy-lesson/sentence-assessment.ts:247-319 | what alignTranscript returns is the marked verdicts of an alignment that no other alignment undercuts |
| `SentenceAlignment.MarkTranspositions` | src/literacy/literacy-lesson/sentence-assessment.ts:323-342 | the in-place pass yields the left-to-right sweep of its input, whose effect the next rows state without it |
| `SentenceAlignment.TransposedMeansExchanged` | src/literacy/literacy-lesson/sentence-assessment.ts:247-342 | in what alignTranscript returns, a transposed word was misread, stands next to another transposed one, and each was heard where the other was expected; every other word is as the cheapest alignment has it |
| `SentenceAlignment.NoExchangeIsLeft` | src/literacy/literacy-lesson/sentence-assessment.ts:247-342 | no two neighbours stay misread that were each heard where the other was expected |
| `SentenceAlignment.MarkSwapsIsSwept` | src/literacy/literacy-lesson/sentence-assessment.ts:323-342 | the pass agrees with the recursive reading of it: mark the first adjacent swap, go on after it |
| `SentenceAlignment.SweptTouchesMisreadsOnly` | src/literacy/literacy-lesson/sentence-assessment.ts:323-342 | a word is left alone or is a misread one turned into transposed; correct, close and omitted words never change |
| `SentenceAlignment.SweptMarksEverySwap` | src/literacy/literacy-lesson/sentence-assessment.ts:323-342 | after the pass no adjacent swap is left unmarked |
| `SentenceAlignment.ZeroCostIsAllCorrect` | src/literacy/literacy-lesson/sentence-assessment.ts:214-342 | a transcript with zero alignment cost has every word correct, through traceback and transposition pass |
| `SentenceAlignment.FluentReadingIsFree` | src/literacy/literacy-lesson/sentence-assessment.ts:233-242 | targets in order with fillers or repeats of the word just read inserted anywhere align at no cost |
| `SentenceAssessment.AssessSentence` | src/literacy/literacy-lesson/sentence-assessment.ts:390-469 | the result has every field of the decision rule: each word is the earliest best-ranked verdict of any engine, the counts, the speed gate and the three-way pass rule; no words is a fail |
| `SentenceAssessment.BudgetIsTheLeast` | src/literacy/literacy-lesson/sentence-assessment.ts:369-375 | the error budget is the least number, one or more, that covers a tenth of the words |
| `SentenceAssessment.FlawedIsAtMostThreeTenths` | src/literacy/literacy-lesson/sentence-assessment.ts:107-115 | the flawed-word cap is three tenths of the words, inclusive |
| `SentenceAssessment.WpmIsNearest` | src/literacy/literacy-lesson/sentence-assessment.ts:128-136 | the reported speed is the exact one to within a twentieth of a word per minute |
| `SentenceAssessment.SplitsAtEveryTilde` | src/literacy/literacy-lesson/sentence-assessment.ts:411-414 | splitting a transcript cuts at every join token: no piece holds one, and joined again they are the transcript |
| `SentenceAssessment.SegmentsAreThePieces` | src/literacy/literacy-lesson/sentence-assessment.ts:411-414 | the segments aligned are exactly the tokenized pieces of all transcripts that are not empty |
| `SentenceAssessment.SegmentsInOrder` | src/literacy/literacy-lesson/sentence-assessment.ts:411-414 | they come in the order of the transcripts and of the pieces within one |
| `SentenceAssessment.FuseWord` | src/literacy/literacy-lesson/sentence-assessment.ts:421-430 | the fused word is the earliest engine verdict of best rank |
| `SentenceAssessment.CountErrors` | src/literacy/literacy-lesson/sentence-assessment.ts:432-451 | the loop over transposed runs counts misses plus half of each transposed run, rounded up |
| `SentenceAssessment.RunsAndPairsAgree` | src/literacy/literacy-lesson/sentence-assessment.ts:432-451 | counting by runs equals counting misses and disjoint adjacent transposed pairs plus left-over singles |
| `SentenceAssessment.OneErrorPerMarkedPair` | src/literacy/literacy-lesson/sentence-assessment.ts:323-451 | within one alignment transposed words come in pairs and each pair is exactly one error |
| `SentenceAssessment.ErrorsWithinFlawed` | src/literacy/literacy-lesson/sentence-assessment.ts:432-455 | errors never exceed flawed words, flawed words never exceed words |
| `SentenceAssessment.CountsAreNested` | src/literacy/literacy-lesson/sentence-assessment.ts:432-469 | errorCount <= flawedWordCount <= wordCount in every assessment |
| `SentenceAssessment.BetterStatusesFewerErrors` | src/literacy/literacy-lesson/sentence-assessment.ts:432-455 | improving any words never raises the error or flawed count, although it regroups the transposed runs |
| `SentenceAssessment.FusedNoWorse` | src/literacy/literacy-lesson/sentence-assessment.ts:411-430 | with more segments, or real ones instead of the all-omitted fallback, no fused word gets worse |
| `SentenceAssessment.MoreTranscriptsNeverHurt` | src/literacy/literacy-lesson/sentence-assessment.ts:411-469 | any read with a superset of the transcripts has no more errors, no more flawed words, and passes if the smaller one did |
| `SentenceAssessment.CleanSegmentWins` | src/literacy/literacy-lesson/sentence-assessment.ts:421-469 | one segment with every word correct settles all words, and only the speed gate can fail the read |
| `SentenceAssessment.ZeroCostSegmentPasses` | src/literacy/literacy-lesson/sentence-assessment.ts:214-469 | the same from zero alignment cost |
| `SentenceAssessment.FluentReadingPasses` | src/literacy/literacy-lesson/sentence-assessment.ts:233-469 | a fluent reading heard by any one engine is marked all correct and fails only for speed |
| `SentenceAssessment.SelectDrillWord` | src/literacy/literacy-lesson/sentence-assessment.ts:478-489 | no drill word exactly when no misread word is teachable; otherwise one of greatest distance, whatever the random draw |
| `SentenceAssessment.DrillableMeansError` | src/literacy/literacy-lesson/sentence-assessment.ts:432-489 | a drillable word implies a positive error count |
| `CharacterStatus.BuildMatrix` | src/literacy/literacy-lesson/identify-character-status.utils.ts:22-53 | every cell is the cost and match count of the recurrence with the free diagonal |
| `CharacterStatus.TakingTheMatchIsSafe` | src/literacy/literacy-lesson/identify-character-status.utils.ts:41-45 | when the last characters match, any script is no better than some script for the shorter pair followed by the match |
| `CharacterStatus.BestIsOptimal` | src/literacy/literacy-lesson/identify-character-status.utils.ts:19-53 | no edit script has fewer edits than the cell, nor as few edits and more equal characters |
| `CharacterStatus.PickBestIsUnbeaten` | src/literacy/literacy-lesson/identify-character-status.utils.ts:81-84 | the picked candidate is one of those given and none beats it |
| `CharacterStatus.ScriptIsPreferred` | src/literacy/literacy-lesson/identify-character-status.utils.ts:65-156 | among all optimal, placed scripts for any two prefixes the traceback is the one that, read from the end, keeps before it replaces, replaces before it deletes, deletes before it inserts |
| `CharacterStatus.BuildCandidates` | src/literacy/literacy-lesson/identify-character-status.utils.ts:65-79 | the candidates are the in-range neighbours with their matrix cells |
| `CharacterStatus.TraceOne` | src/literacy/literacy-lesson/identify-character-status.utils.ts:124-156 | one loop turn takes the diagonal on equal characters, else the best neighbour, and emits its operation |
| `CharacterStatus.TraceBack` | src/literacy/literacy-lesson/identify-character-status.utils.ts:124-156 | the loop ends with the script of the recursive traceback |
| `CharacterStatus.ScriptIsOptimal` | src/literacy/literacy-lesson/identify-character-status.utils.ts:94-156 | from every cell the script rewrites source prefix into target prefix, places each operation where it acts, and has exactly the edits and equal characters of the cell |
| `CharacterStatus.LevenshteinWithOps` | src/literacy/literacy-lesson/identify-character-status.utils.ts:158-168 | distance is the number of non-equal operations of a script that rewrites source into target with the promised match count, and that is preferred to every other such script as good |
| `CharacterStatus.OnlyOneIsPreferred` | src/literacy/literacy-lesson/identify-character-status.utils.ts:94-168 | it is the only optimal script preferred to all others |
| `CharacterStatus.ScoreIsOptimal` | src/literacy/literacy-lesson/identify-character-status.utils.ts:158-168 | no edit script at all beats distance and match count |
| `CharacterStatus.Identify` | src/literacy/literacy-lesson/identify-character-status.utils.ts:181-230 | the first student word no other beats is used, and the two lists partition the distinct characters of the answer, in its order, by what that word's script missed |
| `CharacterStatus.CodePointsCutTheWord` | src/literacy/literacy-lesson/identify-character-status.utils.ts:192-192 | iterating the answer cuts it into single units and surrogate pairs, joined again the answer, with no pair cut in two |
| `CharacterStatus.MissedMeansMisreadSomewhere` | src/literacy/literacy-lesson/identify-character-status.utils.ts:212-220 | a one-unit character is missed if and only if some occurrence of it in the answer is not kept by the script |
| `CharacterStatus.MisreadsAreReported` | src/literacy/literacy-lesson/identify-character-status.utils.ts:181-230 | identify lists exactly the misread characters as incorrect, for all student words, if and only if every character of the answer is a single UTF-16 unit |
| `CharacterStatus.PairIsLost` | src/literacy/literacy-lesson/identify-character-status.utils.ts:181-230 | read as nothing, a two-unit character of the answer is misread, is the only word scored, and is listed as correct |
| `CharacterStatus.UnreadEmojiIsReportedCorrect` | src/literacy/literacy-lesson/identify-character-status.utils.ts:192-220 | the smallest input: an answer of one such character and nothing read |
| `CharacterStatus.SurrogatePairIsNeverMissed` | src/literacy/literacy-lesson/identify-character-status.utils.ts:192-220 | the characters named by the script are single units, so a two-unit one is never among them |
| `MergeCycles.FindMergeCycleBreaks` | src/scripts/seed-geo-entities.ts:307-334 | the returned ids, each once, are exactly the operational members of every cycle and all members of a cycle without one |
| `MergeCycles.BuildMaps` | src/scripts/seed-geo-entities.ts:308-309 | the maps hold each id's last pointer and the operational ids |
| `MergeCycles.LastEdgeWins` | src/scripts/seed-geo-entities.ts:308-309 | for an id with several edges the pointer and the status are those of the last |
| `MergeCycles.OnlyEdgesPoint` | src/scripts/seed-geo-entities.ts:308-309 | an id has a pointer if and only if it has an edge |
| `MergeCycles.FollowPointers` | src/scripts/seed-geo-entities.ts:315-321 | a walk marks a duplicate-free path and stops at a mark or off the graph |
| `MergeCycles.BreaksOn` | src/scripts/seed-geo-entities.ts:322-330 | the ids taken from a path are its loop's operational members, or the whole loop |
| `MergeCycles.PathVerdicts` | src/scripts/seed-geo-entities.ts:313-332 | for every node of a finished path, being cleared is decided by the loop on that path alone |
| `MergeCycles.LoopIsACycle` | src/scripts/seed-geo-entities.ts:322-323 | the nodes from the repeated one on are on a cycle and lead to each other and nothing else |
| `MergeCycles.ClearingFreesOfCycles` | src/scripts/seed-geo-entities.ts:304-334 | clearing the returned ids leaves pointers without any cycle |
| `MergeCycles.NoCycleSurvives` | src/scripts/seed-geo-entities.ts:304-334 | after clearing the pointers no id is on a cycle |
| `MergeCycles.CycleLosesItsOperationalMembers` | src/scripts/seed-geo-entities.ts:304-334 | all members of one cycle agree: it loses exactly its operational members, or every member when none is operational |
| `AserBanks.WordsAreTen` | src/literacy/aser/aser.ts:13-34 | each bank has ten distinct words |
| `AserBanks.LettersAreTen` | src/literacy/aser/aser.ts:13-34 | each bank has ten distinct letters |
| `AserBanks.WordsTeachNoTestedLetter` | src/literacy/aser/aser.ts:9-34 | no letter of a bank occurs in a word of the same bank |
| `AserBanks.ChooseBank` | src/literacy/aser/aser.ts:52-69 | the drawn bank is unseen in the open cycle and is not the last shown when the cycle has just restarted |
| `AserBanks.OptionsRemain` | src/literacy/aser/aser.ts:52-69 | for any history some bank is on offer |
| `AserBanks.RotationIsFair` | src/literacy/aser/aser.ts:40-69 | for any history the rotation produces, stored in any order, the shown banks split into full blocks of five holding all five, and no two in a row are equal |
| `AserTest.AnswerKeepsOrder` | src/literacy/aser/aser.ts:230-306 | a first answer to an item of the current stage keeps passed levels below and failed levels above the stage, or concludes the test, and counts one more answer |
| `AserTest.DecisionKeepsOrder` | src/literacy/aser/aser.ts:217-234 | a decision moves the stage past the decided level or ends the test with the highest passed level as result |
| `AserTest.FirstTwoWords` | src/literacy/aser/aser.ts:264-285 | a run started at words is at the paragraph after two right words, at the letters after two wrong ones, else still at words, with nothing decided and exactly the wrong words kept for the passages |
| `AserTest.UndecidedAnswerStays` | src/literacy/aser/aser.ts:264-287 | an answer that decides nothing leaves the stage alone, the second word of a run started at words excepted |
| `AserTest.AnswerDecides` | src/literacy/aser/aser.ts:237-306 | an answer decides only the level asked: letters and words on four right or seven wrong, the paragraph on one right or two wrong, the story at once |
| `AserTest.DecisionMovesOneLevel` | src/literacy/aser/aser.ts:230-234 | a decision moves one level up when passed and one down when failed, and ends the test if that level is decided or does not exist |
| `AserTest.FinishReports` | src/literacy/aser/aser.ts:186-224 | a finished test reports its highest passed level, and after onboarding the lesson level that stands for it |
| `AserTest.OnlyTheFirstAnswerCounts` | src/literacy/aser/aser.ts:236-243 | answering again changes nothing, nor does any answer once the test is done |
| `AserTest.AnswersAreBounded` | src/literacy/aser/aser.ts:74-91 | no test counts more than 23 answers, and one in progress has room for another |
| `AserTest.RunFrom` | src/literacy/aser/aser.ts:237-306 | from any ordered state, n answers leave an ordered state n answers further, or a concluded one |
| `AserTest.EveryRunEnds` | src/literacy/aser/aser.ts:165-306 | whatever the start stage and answers: passed levels lie below failed ones throughout, and after 23 answers the test is concluded |
| `AserTest.TwentyTwoAnswersMayNotEndIt` | src/literacy/aser/aser.ts:237-306 | the bound is exact: some test is still in progress after 22 answers |
| `AserTest.AnswerTouchesOnlyItsItem` | src/literacy/aser/aser.ts:237-261 | an answer marks the item answered, bumps one tally, keeps a word answered wrong, and leaves bank, delivered lists and all else alone |
| `AserDelivery.Shuffle` | src/literacy/aser/aser.service.ts:80-87 | the in-place shuffle is a permutation whatever the draws |
| `AserDelivery.BankNotExhausted` | src/literacy/aser/aser.service.ts:214-257 | while letters are undecided a bank letter is left, and while words are undecided a bank word is left |
| `AserDelivery.DrawKeepsSound` | src/literacy/aser/aser.service.ts:214-277 | drawing keeps the accounting and can end a run early only for want of a passage |
| `AserDelivery.PlanKeepsSound` | src/literacy/aser/aser.service.ts:100-131 | resuming redelivers the unanswered item or draws anew, and keeps the accounting; neither bank is ever found exhausted |
| `AserDelivery.PlanHandsOver` | src/literacy/aser/aser.service.ts:100-325 | a lesson is about the item on record: a word or passage lesson hands over the unanswered item, redelivered or newly recorded; a letter lesson hands over exactly the undelivered letters with the counts so far |
| `AserDelivery.HandedWordsDiffer` | src/literacy/aser/aser.service.ts:100-325 | over any history of a run two lessons hand over different words, unless the second redelivers the word of the first, unanswered all the time between |
| `AserDelivery.AnsweredWordsStayAnswered` | src/literacy/aser/aser.service.ts:100-325 | a delivered word that is not waiting for its answer never waits for one again |
| `AserDelivery.TurnKeepsSound` | src/literacy/aser/aser.ts:373-417 | a voice turn keeps the accounting and the agreement between test and letter loop |
| `AserDelivery.TurnCountsOneAnswer` | src/literacy/aser/aser.ts:384-400 | a voice turn counts a letter's first answer when the letter counts grow, else the first answer to the waiting item as it was judged, else nothing |
| `AserDelivery.PassedLettersGoOnToAWord` | src/literacy/aser/aser.ts:401-409 | when the letters are passed and the lesson goes on to a word, that word becomes the item and goes on record |
| `AserDelivery.TurnNotesDrills` | src/literacy/aser/aser.ts:410-417 | a turn keeps the word answered wrong at the word level, and the drill word chosen while a paragraph is read, once |
| `AserDelivery.TenLettersDecide` | src/literacy/literacy-lesson/literacy-lesson.machine.ts:264-281 | ten letters always decide a letter test; it is done if and only if its counts decide, and counts every answer until then and none after |
| `AserDelivery.LetterTurnCounts` | src/literacy/aser/aser.ts:384-400 | a voice turn in which the loop counts a pending letter records that letter once and keeps the accounting and the agreement of test and loop |
| `AserDelivery.AdoptKeeps` | src/literacy/aser/aser.ts:401-409 | the word the letter loop returns to is an undelivered bank word and becomes the waiting item |
| `AserDelivery.StaysSound` | src/literacy/aser/aser.service.ts:100-325 | the invariant holds after any lessons, turns, abandons and resumes |
| `AserDelivery.DeliveryIsSound` | src/literacy/aser/aser.service.ts:100-325 | over every such history of a run: delivered letters and words are distinct bank items, as many as answers counted plus the one waiting, at most 23 answers, both exhausted branches are unreachable, and the next lesson hands over the item on record |
| `AserDelivery.SomeDrawIsFair` | src/literacy/aser/aser.service.ts:80-87 | a fair draw always exists, so every run can go on |
| `RegisterSeed.RowsAreAccounted` | src/scripts/seed-geo-entities.ts:448-529 | rows = format skips + pseudo-state skips + duplicates + schools, for every stream |
| `RegisterSeed.TrimTakesTheSpaces` | src/scripts/seed-geo-entities.ts:153-184 | trimming takes the white space at both ends and nothing else |
| `RegisterSeed.WellFormedRows` | src/scripts/seed-geo-entities.ts:168-184 | a row is well formed if and only if its codes are numerals of 11, 2, 4 and 6 digits and its name is not blank |
| `RegisterSeed.RegisteredAreFirsts` | src/scripts/seed-geo-entities.ts:448-505 | the schools are exactly the first well-formed rows of a real state with their code, and every code of such a row has one |
| `RegisterSeed.SkipsAreCounted` | src/scripts/seed-geo-entities.ts:454-500 | the three skip counters are the badly formatted rows, the well-formed ones of no real state, and the rest less the schools |
| `RegisterSeed.RegisteredAreSound` | src/scripts/seed-geo-entities.ts:448-505 | registered codes are distinct and every registered row passed the checks |
| `RegisterSeed.Pass1Accumulator.constructor` | src/scripts/seed-geo-entities.ts:417-442 | an empty accumulator satisfies the invariant |
| `RegisterSeed.Pass1Accumulator.Add` | src/scripts/seed-geo-entities.ts:448-529 | after any stream the counters, code set, levels, parents, statuses, coordinate counts and the first twenty format failures say exactly what the stream registers |
| `RegisterSeed.Pass1Accumulator.AddSchool` | src/scripts/seed-geo-entities.ts:491-529 | one registered row extends every collection by exactly itself |
| `RegisterSeed.TouchCovers` | src/scripts/seed-geo-entities.ts:531-552 | touching a level adds the code and parent, each once, and nothing else |
| `RegisterSeed.TopIsCounted` | src/scripts/seed-geo-entities.ts:374-384 | the most counted key is one of the counted ones, and exists when there is any |
| `RegisterSeed.TopIsTheMajority` | src/scripts/seed-geo-entities.ts:369-384 | the parent resolved for a code is the one most registered rows give it, of several the one given first |
| `RegisterSeed.ParentsAreTouched` | src/scripts/seed-geo-entities.ts:575-598 | levels filled from whole rows never dangle, so the two missing-parent errors are never reported |
| `RegisterSeed.SingleParents` | src/scripts/seed-geo-entities.ts:577-592 | a level has a code with two parents exactly when two rows disagree |
| `RegisterSeed.CleanMeansAcceptable` | src/scripts/seed-geo-entities.ts:575-614 | no error is reported if and only if the register covers every state, nests its levels, maps every status and has a school |
| `RegisterSeed.Pass1Accumulator.ListErrors` | src/scripts/seed-geo-entities.ts:575-615 | all errors found are listed, the format failures among them |
| `RegisterSeed.FilterTakesFormatFailures` | src/scripts/seed-geo-entities.ts:615-640 | the filter on the message takes out the format failures and nothing else |
| `RegisterSeed.Pass1Accumulator.Finish` | src/scripts/seed-geo-entities.ts:575-642 | the errors reported are exactly those that hold, format failures filtered out, and there are none if and only if the register is acceptable |
| `RegisterRun.GeoTable.UpsertInBatches` | src/scripts/seed-geo-entities.ts:924-928 | batching changes nothing: the table ends as after one upsert of all rows |
| `RegisterRun.BuildLevelRows` | src/scripts/seed-geo-entities.ts:719-769 | each code whose majority parent is stored gets one row under it, and exactly the others are reported missing |
| `RegisterRun.SeedLevel` | src/scripts/seed-geo-entities.ts:914-928 | one tier is written with exactly its codes whose parent is stored; everything else in the table is as before |
| `RegisterRun.SeedLevels` | src/scripts/seed-geo-entities.ts:874-931 | country, states, districts, blocks: no code is ever skipped for a missing parent |
| `RegisterRun.SeedSchools` | src/scripts/seed-geo-entities.ts:933-985 | the batched stream stores exactly the built rows of the registered schools, counts them, and aborts without trace if and only if some registered school with a stored block has an unmapped status |
| `RegisterRun.RegisteredGrows` | src/scripts/seed-geo-entities.ts:945-960 | the second pass registers rows in the same order as the first, prefix by prefix |
| `RegisterRun.TopIsTheParent` | src/scripts/seed-geo-entities.ts:555-573 | in an accepted register the majority parent is the only one |
| `RegisterRun.RowIsNested` | src/scripts/seed-geo-entities.ts:874-931 | after the levels, block, district and state of every registered row are stored under each other up to the country |
| `RegisterRun.AllBuilt` | src/scripts/seed-geo-entities.ts:771-806 | with all blocks stored and statuses mapped every registered school is built, its coordinate withheld exactly when four or more operational registered schools share it |
| `RegisterRun.SchoolRowsSayTheirRow` | src/scripts/seed-geo-entities.ts:238-254 | a school is stored under its trimmed code and its block with the status of its trimmed label, its coordinate withheld exactly when four or more operational schools claim it |
| `RegisterRun.RootedReachesTheCountry` | src/scripts/seed-geo-entities.ts:1010-1029 | a table where every entity has its parent one tier up passes the closing hierarchy check |
| `RegisterRun.ClosingCheckIsExact` | src/scripts/seed-geo-entities.ts:1010-1029 | the closing check passes if and only if every stored school has a parent, and so has every next stored entity up its chain below the country |
| `RegisterRun.SeedingKeepsRoots` | src/scripts/seed-geo-entities.ts:874-1029 | seeding over such a table leaves such a table |
| `RegisterRun.SeedAccepted` | src/scripts/seed-geo-entities.ts:874-985 | after a clean first pass the second finds every parent, meets no unmapped status and upserts exactly the schools reported |
| `RegisterRun.BreakCycles` | src/scripts/seed-geo-entities.ts:990-1001 | the pointers cleared are those that must be, and no merge cycle is left |
| `RegisterRun.RunSeed` | src/scripts/seed-geo-entities.ts:852-1029 | rejected if and only if unacceptable, nothing written then or on a dry run; otherwise every school and its chain is stored, nothing else changes, upserted + skipped = rows, no merge cycle is left, and over a rooted table the closing check passes |
| `Calendar.NextDayIsNext` | src/users/traction.ts:92-95 | the next day is a valid date after this one with none between, leap years included |
| `Calendar.NextDayHasTheNextNumber` | src/users/traction.ts:92-95 | the days are those of the Gregorian calendar: the next day has the next number of its closed form |
| `Calendar.KeyIsTheStringOrder` | src/users/traction.ts:98-102 | for years of four digits, comparing zero-padded YYYY-MM-DD strings is comparing keys |
| `Calendar.PaddedOrder` | src/users/traction.ts:98-102 | zero-padded numbers of one width compare as numbers, then by what follows |
| `Calendar.DateRange` | src/users/traction.ts:98-102 | exactly the dates from first to last, once each, in order; none when reversed |
| `TractionStock.Stock` | src/users/traction.ts:106-115 | each entry is the number of dates up to that day, for dates in any order |
| `TractionStock.CountUpToCountsPositions` | src/users/traction.ts:106-115 | that number is the number of list positions whose date is not after the day |
| `TractionUnits.FirstByType` | src/users/traction.ts:132-144 | each unit of a counted type has the earliest onboarding date of its students |
| `TractionUnits.FirstDecidesReached` | src/users/traction.ts:132-147 | the units whose first date is by a day are those with a student onboarded by then |
| `TractionUnits.UnitStock` | src/users/traction.ts:145-147 | each entry is the number of distinct units of the kind with a student onboarded by that day |
| `TractionPassing.SortLatest` | src/users/traction.ts:149-157 | sorting by date, being stable, changes no student's latest result |
| `TractionPassing.SweptLatest` | src/users/traction.ts:158-170 | after sweeping the rows up to a date, a student's last swept row is their latest by that date |
| `TractionPassing.SweepTo` | src/users/traction.ts:163-170 | the inner loop applies exactly the rows dated up to the limit |
| `TractionPassing.PassingAfter` | src/users/traction.ts:166-169 | the running total stays the number of students whose last verdict is a pass |
| `TractionPassing.MplbSweep` | src/users/traction.ts:149-172 | each day's entry is the number of students whose latest result dated at most the next day is a pass |
| `TractionDaily.BuildDaily` | src/users/traction.ts:117-188 | one row per date of the range, its activity looked up and every stock equal to its per-day definition |
| `TractionDaily.DayHasItsStocks` | src/users/traction.ts:117-188 | each column of a day holds its own stock: students and teachers onboarded by then, the distinct units of its own kind they belong to, the students whose latest result by the next day passes |
| `TractionDaily.MinutesAreNearest` | src/users/traction.ts:117-188 | the printed minutes are the exact ones to within a twentieth of a minute |
| `TractionDaily.TotalIsTheLastStock` | src/users/traction.ts:196-203 | the total of students is the stock of the last day, and no earlier stock exceeds it |
| `TractionMonths.MonthsBetween` | src/users/traction.ts:219-219 | exactly the months from first to last date, once each, in order |
| `TractionMonths.CountActive` | src/users/traction.ts:220-230 | each month holds its active rows by known users, split by whether they joined before it |
| `TractionMonths.TallyCountsUsers` | src/users/traction.ts:224-230 | with each user listed at most once a month the count is a number of users |
| `TractionMonths.CountsAddUp` | src/users/traction.ts:224-230 | the counts of all months add up to the rows of listed months with a known user |
| `TractionMonths.ProjectionIsNearest` | src/users/traction.ts:231-239 | a projection is the exact scaling to within half a user and never below the count |
| `TractionMonths.BuildMonthly` | src/users/traction.ts:213-247 | one row per month with those counts; only the last month, while days of it are left, is projected; nothing for a reversed range |
| `TractionMonths.MonthRowSaysItsMonth` | src/users/traction.ts:213-247 | a month counts its active rows by whether their user joined in an earlier month, and is projected, to within half a user, exactly when the series ends in it and the next day is still in it |
| `TractionMonths.JoinedInTheMonthOfTheLastRow` | src/users/traction.ts:220-222 | a student joined in the month of their last row |
| `TractionMonths.OnlyStudentsJoined` | src/users/traction.ts:220-222 | nobody else did |
| `SentenceBand.LessonsCutAtDoneRows` | src/literacy/literacy-lesson/sentence-band-signal.utils.ts:90-118 | the lessons laid end to end are the history from its newest done row on, each starting with its only done row |
| `SentenceBand.OlderRowsKeepNewerLessons` | src/literacy/literacy-lesson/sentence-band-signal.utils.ts:90-118 | older rows extend only the oldest lesson or add older ones |
| `SentenceBand.WindowSeesAPrefix` | src/literacy/literacy-lesson/sentence-band-signal.utils.ts:90-118 | the lessons scored from the newest 18 rows are a prefix of the full history's: all of them for a shorter history, else all but the oldest seen |
| `SentenceBand.GroupRow` | src/literacy/literacy-lesson/sentence-band-signal.utils.ts:103-112 | one loop turn keeps the closed lessons scored and the open one collected |
| `SentenceBand.ComputeSentenceBandSignal` | src/literacy/literacy-lesson/sentence-band-signal.utils.ts:90-156 | the loop scores exactly the complete lessons of the rows in order; it increments if and only if the newest two both pass at first try, and decrements if and only if they do not and either fewer than three done rows are seen of three or more, or both reached the image tier, or both failed out |
| `SentenceBand.FlagsMeanWhatHappened` | src/literacy/literacy-lesson/sentence-band-signal.utils.ts:62-88 | a flow lesson is passed or failed by the answer on its done row, a read lesson passed by a first-try stid on any row and failed by the max-errors stid on its done row |
| `SentenceBand.SignalAgreesWithHistory` | src/literacy/literacy-lesson/sentence-band-signal.utils.ts:90-118 | from the newest 18 rows in any order, the scored flags are those of the first lessons of the full history |
| `SentenceBand.WindowDecidesAsHistory` | src/literacy/literacy-lesson/sentence-band-signal.utils.ts:90-147 | window and full history decide alike if and only if the window overlooks nothing: it overlooks when it is full, holds fewer than three done rows, and the first two lessons of the history both pass at first try, or (with fewer than three done rows ever) both reach the image or both fail out |
| `SentenceBand.OverlookedHistory` | src/literacy/literacy-lesson/sentence-band-signal.utils.ts:90-147 | a history of 18 rows, two first-try passes with the older one sixteen turns long, increments while its window holds |
| `OnboardingMachine.PrintedAgeIsRead` | src/onboarding/onboarding.machine.ts:87-91 | every age the normalizer prints is accepted as that age |
| `OnboardingMachine.PrintedMonthIsRead` | src/onboarding/onboarding.machine.ts:93-97 | every month the normalizer prints is accepted as that month |
| `OnboardingMachine.AcceptedAges` | src/onboarding/onboarding.machine.ts:87-91 | what is accepted as an age is exactly the printed age, 0 to 1000, behind zeros up to four digits |
| `OnboardingMachine.AcceptedMonths` | src/onboarding/onboarding.machine.ts:93-97 | what is accepted as a month is exactly the printed month, 1 to 12, behind a zero or none |
| `OnboardingMachine.RunsAreShaped` | src/onboarding/onboarding.machine.ts:101-333 | in every run the name, year and month are filled in exactly as the questions are passed |
| `OnboardingMachine.RunsSayTheirState` | src/onboarding/onboarding.machine.ts:101-333 | in every run what is said ends with a prompt of the state the run is in, alone or after the note that the reply was not understood |
| `OnboardingMachine.NotUnderstoodAsksAgain` | src/onboarding/onboarding.machine.ts:127-333 | a reply repeats the question and changes nothing else if and only if it is no word the question offers or no age in range |
| `OnboardingMachine.WordsMoveTheRun` | src/onboarding/onboarding.machine.ts:137-240 | where YES, NO and INFORMATION lead from the three consent questions, and what they are answered with |
| `OnboardingMachine.RefusedAfterANo` | src/onboarding/onboarding.machine.ts:163-240 | a run stands at the refusal if and only if a NO to the consent question was followed by neither YES nor NO |
| `OnboardingMachine.DeclinedAfterTwoNos` | src/onboarding/onboarding.machine.ts:208-240 | a run is declined if and only if its last answer was a NO at the refusal |
| `OnboardingMachine.NoDoneWithoutConsent` | src/onboarding/onboarding.machine.ts:163-206 | every run that gets past the consent question contains a YES given at it |
| `OnboardingMachine.AgeBecomesBirthYear` | src/onboarding/onboarding.machine.ts:278-310 | one accepted age sets the birth year to the year of that reply less the age |
| `OnboardingMachine.BirthYearIsTheStatedAge` | src/onboarding/onboarding.machine.ts:101-333 | a run holds a birth year if and only if exactly one of its answers stated an age at the age question, and it is the year of that answer less that age; every completed run holds one |
| `OnboardingTurns.DescribeOnboardingTurns` | src/onboarding/onboarding-turns.ts:140-151 | each message id maps to the description of its row and the row before it |
| `OnboardingTurns.DescribedLooksUp` | src/onboarding/onboarding-turns.ts:140-151 | looking up a message gives the description of its last row |
| `OnboardingTurns.ReplyIsNeverAStart` | src/onboarding/onboarding-turns.ts:69-75 | no reply leaves a row that looks like a start |
| `OnboardingTurns.ReplyIsRecovered` | src/onboarding/onboarding-turns.ts:77-137 | question, reading, next state and completion come back from two consecutive snapshots |
| `OnboardingTurns.AgeRecovery` | src/onboarding/onboarding-turns.ts:116-124 | an age comes back exactly if and only if the row was stored in the year the reply was read in; otherwise it is off by the difference |
| `OnboardingTurns.HistoryIsRecovered` | src/onboarding/onboarding-turns.ts:77-151 | over any history, restarts included, every reading is recovered and every start row is told from a reply |
| `OnboardingTurns.SavedIsTheRecord` | src/onboarding/onboarding-turns.ts:77-137 | the saved fields of all turns of a run, in order, are exactly what its context holds |
| `OnboardingService.OnboardingStore.Insert` | src/onboarding/onboarding.service.ts:357-368 | a second row for one message is refused and leaves the store as it was |
| `OnboardingService.OnboardingStore.RollBack` | src/onboarding/onboarding.service.ts:275-301 | the new rows and columns are those of the rollback function of the old ones |
| `OnboardingService.OnboardingStore.Handle` | src/onboarding/onboarding.service.ts:180-270 | the new rows and columns are those of the turn function of the old ones; what is said is the prompt of the row stored, the completion prompt over a done row, and nothing when the row is refused |
| `OnboardingService.TurnKeepsSound` | src/onboarding/onboarding.service.ts:180-270 | a turn keeps the invariant (one row per message, reachable snapshots, only the newest done, columns set exactly with a done row) if and only if it does not restart a finished onboarding |
| `OnboardingService.RestartKeepsColumns` | src/onboarding/onboarding.service.ts:184-205 | a restart over a finished row leaves permission and birth year set under a newest row that is not done |
| `OnboardingService.RestartThatBreaksTheColumns` | src/onboarding/onboarding.service.ts:184-205 | a finished run followed by a note whose snapshot does not restore is such a store |
| `OnboardingService.RollbackKeepsSound` | src/onboarding/onboarding.service.ts:275-301 | rolling back any message, newest or not, keeps the same |
| `OnboardingService.OperationsKeepSound` | src/onboarding/onboarding.service.ts:180-301 | over any sequence of turns and rollbacks the invariant holds after every prefix if and only if no turn restarts a finished onboarding |
| `OnboardingService.StoredConsentWasSaid` | src/onboarding/onboarding.service.ts:180-301 | in any history at all, restarts included, a stored row past the consent question comes after a turn of that history read as YES while the newest row asked for consent |
| `OnboardingService.PermissionMeansConsent` | src/onboarding/onboarding.service.ts:180-301 | from an un-onboarded user, while no finished onboarding is restarted, permission and birth year are set if and only if the newest row is done, and then some turn of the history said YES to the consent question |
| `OnboardingService.CompletionWritesWhatWasSaved` | src/onboarding/onboarding.service.ts:233-250 | the columns the completing turn writes are exactly the fields the reader says the run saved |
| `OnboardingService.SpelledAgeSetsTheBirthYear` | src/onboarding/onboarding.service.ts:123-128 | an age spelled among neutral words, normalized and replied, sets the birth year it means |
| `OnboardingService.RollbackUndoes` | src/onboarding/onboarding.service.ts:275-301 | a stored turn rolled back leaves the rows and all columns but the name as before |
| `OnboardingService.RetryIsOneAttempt` | src/onboarding/onboarding.service.ts:180-301 | rollback and retry with the same reading equals one attempt, up to the permission time of a completing turn |
| `AnswerMatch.ReadDigitRun` | src/onboarding/onboarding-answer-match.ts:566-578 | two or more digit words in a row are read as one number, up to the first word that is none |
| `AnswerMatch.RunIsItsNumeral` | src/onboarding/onboarding-answer-match.ts:566-578 | the number is the one whose numeral the digits are: five zero is 50 |
| `AnswerMatch.NumberAdvances` | src/onboarding/onboarding-answer-match.ts:606-653 | a number read at a position ends after it and within the text |
| `AnswerMatch.SpansAreDisjoint` | src/onboarding/onboarding-answer-match.ts:682-701 | the scan goes over non-empty, disjoint spans from left to right |
| `AnswerMatch.NumbersIn` | src/onboarding/onboarding-answer-match.ts:682-701 | the distinct numbers of those spans, each once |
| `AnswerMatch.SpelledNumberAt` | src/onboarding/onboarding-answer-match.ts:606-653 | a number spelled [thousands] [hundreds] [and] [rest], its parts in words, numerals or digits read out, ten hundreds or more standing for thousands, is read as its value over exactly its words |
| `AnswerMatch.ReadNumberIsSpelled` | src/onboarding/onboarding-answer-match.ts:566-653 | conversely every number read is one its own words spell, at their value: nothing else is read into a text |
| `AnswerMatch.SpelledNumberIsRead` | src/onboarding/onboarding-answer-match.ts:606-701 | among any neutral words it is the one number read |
| `AnswerMatch.AgreementMeansOneNumber` | src/onboarding/onboarding-answer-match.ts:728-732 | readings agree on n if and only if none conflicts, one is n and no other number is among them |
| `AnswerMatch.AgeReading` | src/onboarding/onboarding-answer-match.ts:734-741 | none for no number, conflict for several or one out of range, else the number |
| `AnswerMatch.ReadAge` | src/onboarding/onboarding-answer-match.ts:767-769 | the age is the agreed value of that one reading |
| `AnswerMatch.OneNumberInRangeIsTheAge` | src/onboarding/onboarding-answer-match.ts:728-769 | an age is read if and only if one number is, and it is at most 1000 |
| `AnswerMatch.SpelledAgeIsRead` | src/onboarding/onboarding-answer-match.ts:606-769 | an age up to 1000 spelled among neutral words is read as that age |
| `InteractionsCsv.ReadCell` | src/users/interactions-csv.ts:127-132 | a printed cell reads back as its hardened text, whatever it contains |
| `InteractionsCsv.ReadLine` | src/users/interactions-csv.ts:140-171 | a printed record reads back as its hardened cells |
| `InteractionsCsv.PrintedTableReadsBack` | src/users/interactions-csv.ts:127-171 | any printed table reads back exactly, row by row, with a reader for section 2 of RFC 4180 |
| `InteractionsCsv.NoCellStartsAFormula` | src/users/interactions-csv.ts:119-132 | no cell read back starts with =, +, - or @ |
| `InteractionsCsv.HardeningCollides` | src/users/interactions-csv.ts:127-132 | two cells print alike if and only if they are equal or one is the other behind an apostrophe |
| `InteractionsCsv.FormulaAndItsQuotedForm` | src/users/interactions-csv.ts:127-132 | =x and '=x are such a pair |
| `InteractionsCsv.HeaderPrints` | src/users/interactions-csv.ts:173-175 | the header line is the byte order mark and one printed record |
| `InteractionsCsv.PeopleUnderTheirColumns` | src/users/interactions-csv.ts:92-170 | who, where and which lesson: each field stands in the column named after it, missing ones empty |
| `InteractionsCsv.AnswersUnderTheirColumns` | src/users/interactions-csv.ts:92-170 | the same for the answer, its transcripts, duration and status |
| `InteractionsCsv.LessonsUnderTheirColumns` | src/users/interactions-csv.ts:92-170 | the same for what the lesson did and the two ids |
| `InteractionsCsv.ColumnsAreDistinct` | src/users/interactions-csv.ts:92-116 | no two columns share a name |
| `InteractionsCsv.ExportReadsBack` | src/users/interactions-csv.ts:140-180 | the whole export reads back as header, hardened rows and, exactly when finished, the footer |
| `InteractionsCsv.FooterMarksCompletion` | src/users/interactions-csv.ts:177-180 | of the records of an export no other equals a footer, so one is present, last, exactly when the export finished |
| `CsvTruncation.CutCell` | src/users/interactions-csv.ts:127-132 | a text that ends inside a printed cell is an error or reads as the start of that cell |
| `CsvTruncation.CutTable` | src/users/interactions-csv.ts:140-171 | a table cut anywhere is an error or reads as its whole rows before the cut and at most one shortened row |
| `CsvTruncation.CutExportsLookUnfinished` | src/users/interactions-csv.ts:127-180 | some cut before the last visible character of a finished export reads with a footer if and only if some row has the footer's first cell as its timestamp and a student id that can be cut to the second |
| `CsvTruncation.DatedExportsAreSafe` | src/users/user.service.ts:82-82 | timestamps are printed with a digit first, so no cut of such an export reads with a footer |
| `StableSort.SortIsSorted` | src/users/traction.ts:149-157 | the stable sort used for the array sorts is sorted and a permutation |
| `StableSort.SortRecovers` | src/literacy/literacy-lesson/sentence-band-signal.utils.ts:94-94 | sorting any shuffle of a strictly increasing list gives the list back |

## Left out

- SQL, queues, caches, HTTP and dependency injection: queries are given sequences and maps, transactions are atomic steps.
- Text normalization, tokenizing, word marking, akshara segmentation and their caches: arbitrary deterministic functions.
- The language-model prompts, completion calls and the regular expressions that normalize their output: only the set of normalized replies is modelled.
- Floating-point error: `ReadingWpm`, `Minutes` and the accuracy ratio are exact reals rounded as the source rounds.
- The milestone schedule and the start stage chosen from it: a table of hours and levels with no state behind it; any milestone and start stage is allowed.
- `aserTestScoresFromRows`: the display fold over stored rows, which nothing modelled here reads.
- Selection of passages by excluded words: the passage drawn is a parameter.
- The lesson machine outside the letter loop, of which only the stated guarantees are used.
- Pass1Accumulator.Add: does not model the counters of status, management and cluster values and the parse skips, which are only printed.
- Pass1Accumulator.AddSchool: does not model names, local-government ids and attribute sizes, which are only displayed or printed.
- Pass1Accumulator.Finish: does not model the wording beyond how each message begins, nor the order of the errors.
- BuildLevelRows: does not model the name, local-government id and boundary columns of a row.
- RunSeed: does not model how merge pointers are linked from the stored attributes (the linked pointers are a parameter) and the block coordinates computed by geometric median.
- Parsing of the register file and of coordinates: a row arrives parsed, with its coordinate key; rows the parser skips are not counted.
- Keys inherited by the status map object (such as `constructor`): the map has only its own entries.
- BuildDaily: does not model the total of hours, a rounded sum.
- The ambiguous-word rule of strict readings and month names: the reader is modelled without them, as it is applied to a model's reply.
- Numbers of 16 and more digits, which the source reads with rounding.
- Snapshots in the stored rows that are not well formed: the reader then reports nothing.
- RollbackUndoes: the name written by a completing turn stays after a rollback without a retry, as the source leaves it.
- OnboardingStore.Handle: does not model the first lesson started by a completing turn and what it says.
- Time zones and the paging of the exports; the censoring of transcripts.
- The passages export shares the printer; its own columns are not modelled.
