# Verified model of the hrmosaic answer pipeline

This project models the deterministic code that stands around the language model in hrmosaic: the
scanner that cuts completed blocks out of a streaming answer, the passes that rewrite the answer
after synthesis, the MCP client's cached handshake, the judge's pacer and retry loops, the
action-safety checker and the canonical serialiser it compares with, and the fold that reads a
document into sections. Everything the language model, a tool, a clock or a provider says is an
arbitrary input.

Code that updates fields or lists in a loop is modelled by classes and methods with the same fields
and loops; each is proved equal to a function, and the promises of the source are proved about that
function as lemmas over every input, every run or every interleaving. The laws of the main operations
are said without the functions they are about: of the blocks, events, rows or texts that go in and
come out.

| file | what it models |
|---|---|
| `AnswerStream.dfy`, `AnswerBody.dfy`, `AnswerAssembly.dfy`, `GrowingBody.dfy` | the resumable block scanner, RFC 8259 bodies it must undo, the coalescing assembler, and what is found and shown of a body cut off anywhere |
| `Sentences.dfy` | the sentence splitter every rewriting pass works by, character by character |
| `Outcome.dfy`, `Remainders.dfy`, `Amendment.dfy`, `QuietTurn.dfy` | one account of a performed write, and what remains of each block beside it; an earlier write of the session amended instead of refiled; both over a turn that wrote nothing |
| `Repetition.dfy`, `OnceSaid.dfy`, `Breadth.dfy` | repeated sentences, duplicate claims, citations kept and carried |
| `Calendar.dfy`, `Dates.dfy` | business-day subtraction, dates printed and read back, deadlines repaired |
| `Arithmetic.dfy` | the working behind a balance, printed, read back and checked |
| `Passages.dfy`, `Reprints.dfy`, `Deadlines.dfy`, `Workings.dfy` | a passage rewritten at its claims and nowhere else; the rewritten passage read again, for deadlines and for workings |
| `ComplianceRows.dfy`, `StepWords.dfy`, `Compliance.dfy`, `Served.dfy` | the engine's rows and steps, the row a step restates, the restatement pass, and what it serves of each block and step |
| `Client.dfy` | the handshake as a step machine over its await points |
| `Judges.dfy` | the pacer and the retry loops |
| `Canonical.dfy`, `PersistedText.dfy`, `ActionSafety.dfy`, `StoreSafety.dfy` | canonical arguments, the text searched for tokens, the checker, and its four clauses read off the rows of the store |
| `Headings.dfy` | the heading stack |
| `Blocks.dfy`, `Lists.dfy`, `Texts.dfy`, `Digits.dfy` | blocks, lists, strings and decimal numbers shared by the rest |

Calls whose behaviour is not part of this model are function values in the contracts: `json.loads`
on a span (`Decoder`), the redactor, the vocabulary tests of the passes (`Vocabulary`, `Stance`), the
normal forms of a claim and of a sentence (`ClaimKey`, `SentenceKey`), the clock, the sleep and the
provider. Where a proof needs more of such a test than that it is a function, the lemma says so, for
instance that surrounding whitespace does not change its answer.

## Where a claim has a condition

- A repaired deadline is left alone by a second pass exactly when the anchor names its own year, or
  the stated date was already in the year of the deadline, or the anchor is no date in that year
  (`Dates.RepairSettles`), and a passage exactly when each of its restated deadlines is
  (`Deadlines.DeadlinesSettle`); `Dates.YearlessAnchorCrosses` is a claim that crosses January.
- `human_date` reads back exactly for the years 1000 to 9999 (`Dates.HumanDateReadsBack`).
- A printed working keeps its meaning exactly when accrual and carryover are not negative and the
  first amount printed is not a subtracted one (`Arithmetic.WorkingRoundTrip`): the reader of terms
  does not see the minus sign of an amount, and the first amount is printed without its operator.
  `Arithmetic.SubtractedFirstAmountIsMisread` is a balance of January that fails. A corrected passage
  reads the same after a second pass all the same, since an unsound working of the balance's own gives
  way to itself (`Workings.WorkingsSettle`); that it is found sound has this condition
  (`Workings.ReplacedIsSound`).
- A catalog implies its connection, not the other way round: a connection has no catalog exactly when
  its schemas were malformed (`Client.ConnectionWithoutCatalog`), and an open session is lost exactly
  when its handshake was cancelled or, being malformed, published over (`Client.NoSessionIsLost`);
  `Client.MalformedSchemaLosesASession` is a run that loses one.
- For clauses 1 to 3 of action safety the whole store is clean exactly when every turn is and no
  `mock_writes` row is without a turn, which the table allows (`ActionSafety.CleanTurnByTurn`).
- The search for a leaked token never misses one, and its verdict is right exactly when there is a
  leak or nothing looks like one, that is, no control character's escape completes the token with what
  stands behind it, and the token is not part of the word written for a missing answer
  (`PersistedText.NoticesExactlyLeaks`). `PersistedText.EscapeCanLookLikeAToken` is a false alarm for
  every token that begins with n.
- A write otherwise in order is cleared exactly when the first successful call of its tool in the turn
  had the arguments of its own call (`ActionSafety.OwnCallIsCleared`).
  `ActionSafety.SecondTicketIsFaulted` is a store of two tickets, each confirmed and filed as it was
  approved, where the second is faulted for the arguments of the first.
- On a turn that wrote nothing, behind one that did, the outcome step changes its own answer exactly
  when advice with a stale directive in it is amended and the line put there states the reader's
  record itself, or the same befalls an uncited policy fact beside what is left of it
  (`QuietTurn.QuietTurnSettles`; `QuietTurn.CitedTurnSettles` where every policy fact is cited). The
  line is no directive, and it states the record when a number in the earlier write's id is a number
  of an envelope, or an envelope carries the id. `QuietTurn.QuietTurnCanChange` is such an id,
  MOCK-HR-000013, which reads as the number 13.
- A text corrected against the engine's rows is left alone by a second pass exactly when no sentence
  the engine put into it opposes one single row itself (`Compliance.CorrectSettles`);
  `Compliance.SecondPassCanChange` is a denied standing rule, put right by a sentence that names the
  subject of an unmet row. It takes a standing rule whose text names another row's subject word, which
  none in today's `corpus/rules.yml` does.

Three places where the code and its own words differ; the model follows the code. The docstring of
`dates.correct` keeps everything outside the spans as it is, and a dropped claim takes the blanks in front
of it too (`Passages.OutsideComesBack`). The comment above
the retyping in `outcome.apply` exempts a policy claim, and what the code tests is only that the
block's index is in `policy_claims`. `action_safety_violations` skips clause 3 for a write whose token
is unknown, though clause 3 is stated for every write; the list is not empty either way.

## Model

| member | source | states |
|---|---|---|
| `AnswerStream.BlockScanner.constructor` | src/hrmosaic/agent/answer_stream.py:68-77 | a new scanner has seen nothing and taken nothing |
| `AnswerStream.BlockScanner.Push` | src/hrmosaic/agent/answer_stream.py:79-80 | text is appended and no other field changes |
| `AnswerStream.BlockScanner.Advance` | src/hrmosaic/agent/answer_stream.py:82-119 | every field after the call is that of the specification scan of what had arrived; what that finds of a growing body is `GrowingBody.CutRoundTrip` |
| `AnswerStream.BlockScanner.ScanBuffer` | src/hrmosaic/agent/answer_stream.py:93-119 | the loop ends in the state the character-by-character scan ends in |
| `AnswerStream.BlockScanner.ReadCharacter` | src/hrmosaic/agent/answer_stream.py:95-118 | one character moves depth, start, string and escape flags as one step of the scan |
| `AnswerStream.BlockScanner.TryOpenArray` | src/hrmosaic/agent/answer_stream.py:121-130 | the array is entered exactly when the first key and a bracket behind it have arrived; nothing moves otherwise |
| `AnswerStream.BlockScanner.TryTake` | src/hrmosaic/agent/answer_stream.py:132-143 | an object joins the blocks, any other value is passed over, and an undecodable span ends the scan |
| `AnswerStream.ScanPush` | src/hrmosaic/agent/answer_stream.py:93-119 | scanning, then receiving more text, then scanning is scanning all of it |
| `AnswerStream.OpenArrayPush` | src/hrmosaic/agent/answer_stream.py:121-130 | an array once entered is entered at the same place when more text follows |
| `AnswerStream.AdvancePush` | src/hrmosaic/agent/answer_stream.py:79-119 | an early advance changes nothing of where the next one ends |
| `AnswerStream.AdvanceTwice` | src/hrmosaic/agent/answer_stream.py:82-119 | an advance with nothing new to read changes nothing |
| `AnswerStream.ChunkingIndependence` | src/hrmosaic/agent/answer_stream.py:65-143 | for every text and every cutting of it into deltas, with or without an advance after each, the whole scanner state is that of one scan of the whole text |
| `AnswerStream.BlocksGrow` | src/hrmosaic/agent/answer_stream.py:65-143 | more text only adds blocks behind those already found |
| `AnswerBody.ValueIsNeutral` | src/hrmosaic/agent/answer_stream.py:95-118 | any printed JSON value inside an object leaves the scanner at the depth and outside the string it found it in |
| `AnswerBody.ObjectScan` | src/hrmosaic/agent/answer_stream.py:95-118 | at the top of the array a printed object is handed to the decoder whole, whatever braces, brackets and escaped quotes it holds |
| `AnswerBody.RoundTrip` | src/hrmosaic/agent/answer_stream.py:46-143 | for every list of objects printed by RFC 8259 sections 4, 5 and 7 into a body whose first blocks key opens their array, the spans taken are exactly those objects in order, and nothing behind the array is taken |
| `AnswerBody.StreamedRoundTrip` | src/hrmosaic/agent/answer_stream.py:46-143 | the same for every way the body can arrive in deltas |
| `GrowingBody.GrowingRoundTrip` | src/hrmosaic/agent/answer_stream.py:82-143 | whatever has arrived behind them, the objects that have arrived whole are the first blocks, in order; and they are all the blocks as long as nothing behind them closes another |
| `GrowingBody.CutRoundTrip` | src/hrmosaic/agent/answer_stream.py:82-143 | a printed body cut off after any character has given up exactly the objects whose closing braces have arrived |
| `GrowingBody.ShownWhileGrowing` | src/hrmosaic/agent/answer_stream.py:167-205 | over every run on a growing body only objects that have closed are shown, and every one of them by the first scan behind its brace |
| `AnswerAssembly.AnswerAssembler.constructor` | src/hrmosaic/agent/answer_stream.py:149-165 | a new assembler owes nothing and has shown nothing |
| `AnswerAssembly.AnswerAssembler.Feed` | src/hrmosaic/agent/answer_stream.py:167-176 | one delta: scanner, counters and emitted frames are those of the specification step; when it must scan is `AnswerAssembly.FeedScansWhenDue` |
| `AnswerAssembly.AnswerAssembler.Flush` | src/hrmosaic/agent/answer_stream.py:178-180 | a flush always scans |
| `AnswerAssembly.AnswerAssembler.Drain` | src/hrmosaic/agent/answer_stream.py:182-205 | the frames returned are those of the blocks not yet emitted, under their own indexes |
| `AnswerAssembly.EmittedAll` | src/hrmosaic/agent/answer_stream.py:182-205 | over every run each block the scanner holds has been emitted once, in order |
| `AnswerAssembly.EmissionIsPrefix` | src/hrmosaic/agent/answer_stream.py:146-205 | over every run what was shown is a prefix of what one scan of all the text shows, with indexes 0, 1, 2 and so on, and all of it after a flush |
| `AnswerAssembly.ShownRedacted` | src/hrmosaic/agent/answer_stream.py:182-205 | over every run each frame has its place as index, its block's kind and citations, and its block's text as the redactor leaves it |
| `AnswerAssembly.FeedScansWhenDue` | src/hrmosaic/agent/answer_stream.py:167-176 | over every run a feed scans, and then shows all there is to show, exactly when the characters fed since the last feed that scanned fill a batch or the time since then is up; otherwise it shows nothing |
| `AnswerAssembly.ScansAreBounded` | src/hrmosaic/agent/answer_stream.py:167-205 | with a monotone clock the scans are at most characters over the batch size, plus time over the interval, plus flushes |
| `Sentences.SplitPieces` | src/hrmosaic/agent/outcome.py:573-575 | a split leaves pieces with a sentence's end and beginning at every joint and no boundary inside |
| `Sentences.SentencesArePieces` | src/hrmosaic/agent/outcome.py:573-575 | the sentences of a text are such pieces, and there are none exactly when the text is blank |
| `Sentences.Rejoin` | src/hrmosaic/agent/outcome.py:573-575 | any selection of a text's sentences, joined by spaces, splits back into exactly those sentences |
| `Outcome.PerformedWrite` | src/hrmosaic/agent/outcome.py:448-470 | the last envelope that carries a success status and an id, and none exactly when there is no such envelope |
| `Outcome.Trim` | src/hrmosaic/agent/outcome.py:598-617 | the text and the removed sentences are those of the specification, over a loop that sorts each sentence |
| `Outcome.TrimmedStays` | src/hrmosaic/agent/outcome.py:598-617 | no sentence of a trimmed text claims the write, or directs the reader to it without naming its id |
| `Outcome.RecordIsSplitOff` | src/hrmosaic/agent/outcome.py:724-792 | a block that mixes advice with the reader's record gives up exactly its record sentences, uncited, and keeps kind and citations for the rest, which is mixed no more |
| `Outcome.SplitSettles` | src/hrmosaic/agent/outcome.py:724-792 | splitting the record out of a block again leaves each half as it is |
| `Outcome.UnsplitExactly` | src/hrmosaic/agent/outcome.py:724-792 | exactly when the record split leaves a block alone; otherwise it becomes two blocks or changes its kind |
| `Outcome.Apply` | src/hrmosaic/agent/outcome.py:877-1009 | blocks and next steps are those of the specification, for a write read from the envelopes or for none; block by block they are as `Remainders.AnswerAfterWrite` and `Remainders.AnswerWithoutWrite` say |
| `Outcome.KeepSteps` | src/hrmosaic/agent/outcome.py:913-921 | the next steps that claim no write and do not direct the reader to it without its id, in order |
| `Outcome.ApplyToBlock` | src/hrmosaic/agent/outcome.py:925-967 | what one block becomes: nothing, one block, or a block and the record split out of it, as `Remainders.AnswerAfterWrite` says of each |
| `Outcome.WriteStepIdempotent` | src/hrmosaic/agent/outcome.py:877-1009 | with a performed write and no policy claims the step applied to its own blocks and next steps changes nothing |
| `Outcome.MarkedStepIdempotent` | src/hrmosaic/agent/outcome.py:877-1009 | the same where the policy claims are the blocks marked as such |
| `Outcome.OneAccountOfTheWrite` | src/hrmosaic/agent/outcome.py:892-1009 | after a performed write exactly one performed block exists, it is first and says the tool's own statement, and no other sentence or next step claims the write or directs the reader to redo it without its id |
| `Outcome.NoWriteNoAccount` | src/hrmosaic/agent/outcome.py:892-899 | on a turn that wrote nothing no block is typed as performed, whatever the model typed, and the next steps stand |
| `Outcome.SentencesConserved` | src/hrmosaic/agent/outcome.py:925-967 | every sentence that may stay, outside the blocks replaced whole, is said exactly as often after the step as before it, and no other one |
| `Remainders.AnswerAfterWrite` | src/hrmosaic/agent/outcome.py:877-1009 | after a performed write: the statement, then in order what remains of each block, which keeps its citations, identity and marker, and its kind unless it is advice that lost a sentence and no longer advises; gone are other accounts, denials, and blocks all of whose sentences go; of the next steps those that may stand |
| `Remainders.AnswerWithoutWrite` | src/hrmosaic/agent/outcome.py:892-967 | without a write: each block in order, unchanged but for the reader's record split off or the whole typed as a record, `performed` read as advice; and every next step |
| `Remainders.NoCitationIsMoved` | src/hrmosaic/agent/outcome.py:877-967 | whatever is cited after the step, and every policy fact, comes from a block with the same citations, identity and marker |
| `Remainders.EvidenceExactly` | src/hrmosaic/agent/outcome.py:448-470 | a tool result proves a write exactly when it is a ticket created or an email drafted, under the ticket's id or else the draft's |
| `Amendment.Amend` | src/hrmosaic/agent/outcome.py:850-874 | each stale directive gives way to the line that names the earlier write, which is not said twice in one text |
| `Amendment.OthersStand` | src/hrmosaic/agent/outcome.py:863-871 | of the sentences of the amended text: every one that was not stale stands, in its order, and where one was stale the line is there |
| `Amendment.LineTakesItsPlace` | src/hrmosaic/agent/outcome.py:863-871 | a text that does not say the line yet stands up to its first stale sentence, which gives way to the line; the other stale ones are gone, and a text without one is unchanged |
| `Amendment.AmendAnswer` | src/hrmosaic/agent/outcome.py:974-997 | blocks and next steps are those of the specification |
| `Amendment.LineIsOneSentence` | src/hrmosaic/agent/outcome.py:847 | the line is read as one sentence wherever it is put, if no sentence begins inside the id |
| `Amendment.AmendSettles` | src/hrmosaic/agent/outcome.py:850-874 | after one pass no sentence without the id directs the reader to file, and a second pass changes nothing |
| `Amendment.AmendBlocksSettles` | src/hrmosaic/agent/outcome.py:974-990 | over the answer: cited policy facts, kinds and citations are untouched, no other block sends the reader to file again, and doing it again changes nothing |
| `Amendment.AmendStepsSettles` | src/hrmosaic/agent/outcome.py:991-997 | the same for the next steps, which come out distinct and in the order of their first occurrences |
| `QuietTurn.QuietTurnSettles` | src/hrmosaic/agent/outcome.py:898-997 | on a turn that wrote nothing, after an earlier write, the step is repeated without effect exactly when no block it is called with has a stale directive beside which, or beside the line put for it, the record split finds a record |
| `QuietTurn.CitedTurnSettles` | src/hrmosaic/agent/outcome.py:898-997 | where every policy fact is cited: exactly when the line does not state the record itself or no advice has a stale directive |
| `QuietTurn.QuietTurnCanChange` | src/hrmosaic/agent/outcome.py:898-997 | one directive and the id MOCK-HR-000013: the line put for the directive is retyped as the reader's record by a second pass |
| `Repetition.DedupeSentences` | src/hrmosaic/agent/outcome.py:795-841 | the blocks kept and the indexes removed are those of the specification |
| `Repetition.ReadSentences` | src/hrmosaic/agent/outcome.py:812-830 | the inner loop: what is kept of a block, what is remembered, and where repeats were first said |
| `Repetition.DedupeIdempotent` | src/hrmosaic/agent/outcome.py:795-841 | a second pass keeps every block as it is and removes none |
| `OnceSaid.DedupeTellsOnce` | src/hrmosaic/agent/outcome.py:795-838 | the pass with its memory keeps and takes out, block for block and sentence for sentence, what holding each sentence against every sentence kept before it does |
| `OnceSaid.CoreExactly` | src/hrmosaic/agent/outcome.py:819-821 | the core is what stands behind the first colon and space, and the whole where there is none |
| `Repetition.EachSentenceOnce` | src/hrmosaic/agent/outcome.py:795-841 | no sentence of the result repeats an earlier one, in full or behind its lede, in its own block or another |
| `Repetition.MemoryIsTruthful` | src/hrmosaic/agent/outcome.py:806-829 | what is remembered of a sentence points at a kept block that says it |
| `Repetition.DedupeLosesNone` | src/hrmosaic/agent/outcome.py:830-841 | every citation ends on a kept block that shares a sentence with the block it was on |
| `Repetition.DedupeInventsNone` | src/hrmosaic/agent/outcome.py:830-841 | every citation of a kept block was on a block that shares a sentence with it |
| `Repetition.DedupeKeepsCitations` | src/hrmosaic/agent/outcome.py:795-841 | the union of citations is unchanged |
| `Repetition.DedupeKeepsDocuments` | src/hrmosaic/agent/outcome.py:795-841 | the documents an answer reaches are unchanged |
| `Breadth.Merge` | src/hrmosaic/agent/breadth.py:178-204 | the blocks kept and the indexes merged are those of the specification |
| `Breadth.Merged` | src/hrmosaic/agent/breadth.py:178-204 | the index of seen claims always points at the kept policy fact that makes the claim, and knows every one |
| `Breadth.JoinedInOrder` | src/hrmosaic/agent/breadth.py:191-203 | the citations joined on are those not there yet, each once, in the order they had |
| `Breadth.MergeLosesNone` | src/hrmosaic/agent/breadth.py:178-204 | every citation ends on a kept block that makes the same claim |
| `Breadth.MergeInventsNone` | src/hrmosaic/agent/breadth.py:178-204 | every citation of a kept block was on a block that makes the same claim |
| `Breadth.MergeKeepsCitations` | src/hrmosaic/agent/breadth.py:178-204 | the union of citations is unchanged |
| `Breadth.MergedAreRepeats` | src/hrmosaic/agent/breadth.py:178-204 | a block is merged away exactly when an earlier policy fact made its claim |
| `Breadth.KeptAreFirsts` | src/hrmosaic/agent/breadth.py:178-204 | all other blocks are kept in order with nothing but citations changed |
| `Breadth.MergeIdempotent` | src/hrmosaic/agent/breadth.py:178-204 | merging again changes nothing |
| `Breadth.MergeKeepsDocuments` | src/hrmosaic/agent/breadth.py:148-153 | the documents an answer reaches are unchanged by a merge |
| `Breadth.UncitedDocuments` | src/hrmosaic/agent/breadth.py:156-163 | exactly the documents of citable chunks no block cites, each once, in the order first offered |
| `Breadth.CitedExactly` | src/hrmosaic/agent/breadth.py:143-154 | the documents reached are those of the citable chunks that some block cites, an id being read as its last citable chunk |
| `Breadth.CarryCitations` | src/hrmosaic/agent/breadth.py:244-277 | the blocks and the carried list are those of the specification |
| `Breadth.CarryIsExact` | src/hrmosaic/agent/breadth.py:244-277 | a block keeps its citations as a prefix and gains one exactly when a reference block with the same id, whose last surviving block it is, has it |
| `Breadth.CarriedIsGained` | src/hrmosaic/agent/breadth.py:244-273 | the list handed back is all that the blocks have gained, each citation as often as it was put back |
| `Breadth.CarryIdempotent` | src/hrmosaic/agent/breadth.py:244-277 | a second carry adds nothing |
| `Calendar.MinusDays` | src/hrmosaic/agent/dates.py:109-118 | the loop terminates on the day the specification walks back to |
| `Calendar.BusinessDaysCounted` | src/hrmosaic/agent/dates.py:109-118 | there are exactly that many weekdays from the result up to the anchor, and the result is one if any were asked for |
| `Calendar.BusinessDaysUnique` | src/hrmosaic/agent/dates.py:109-118 | the result is the only weekday of which that is true |
| `Calendar.BusinessDaysCompose` | src/hrmosaic/agent/dates.py:109-118 | m days and then n days are m + n days |
| `Calendar.BusinessWeeks` | src/hrmosaic/agent/dates.py:109-118 | from a weekday, five business days per week are seven calendar days per week |
| `Calendar.MinusSeparates` | src/hrmosaic/agent/dates.py:109-118 | anchors at least three days apart never give the same day |
| `Dates.HumanDateReadsBack` | src/hrmosaic/agent/dates.py:89-106 | a printed date is read back as itself exactly for years of four digits |
| `Dates.SuffixIsPassed` | src/hrmosaic/agent/dates.py:94-106 | behind the day it makes no difference whether its suffix is written |
| `Dates.RepairExactly` | src/hrmosaic/agent/dates.py:121-151 | a claim goes exactly where no day is stated in front of a readable anchor, is said otherwise exactly where the stated day is read and is not the day counted back, which it then states, and stands in every other case |
| `Dates.RepairSettles` | src/hrmosaic/agent/dates.py:121-151 | a claim whose day is not the one its anchor gives is restated, and the condition on anchor, stated date and day counted back under which a second repair leaves it |
| `Dates.YearlessAnchorCrosses` | src/hrmosaic/agent/dates.py:121-151 | a claim whose anchor has no year and whose repair is repaired again |
| `Dates.WeekdaySettles` | src/hrmosaic/agent/dates.py:154-170 | a repaired weekday is the day's own when the date can be read, and is left alone by a second pass; a right one, and one before a date that cannot be read, stands |
| `Dates.WeekdayOfPrintedDate` | src/hrmosaic/agent/dates.py:154-170 | in front of a printed date the repair puts that date's own weekday |
| `Passages.Correct` | src/hrmosaic/agent/dates.py:173-207 | the passage is that of the specification, built piece by piece over the matches |
| `Passages.OutsideComesBack` | src/hrmosaic/agent/dates.py:173-207 | the passage comes back byte for byte, with nothing replaced but the rewritten spans and, for a dropped claim, the blanks that introduced it |
| `Passages.WidenedIsExact` | src/hrmosaic/agent/dates.py:186-205 | only a dropped claim takes more than its own span: all the blanks in front of it back to the span before, and a space stays exactly where two words would be joined |
| `Passages.NothingElseMoves` | src/hrmosaic/agent/dates.py:173-207 | where no claim is dropped everything outside the rewritten spans comes back byte for byte |
| `Reprints.PassTwice` | src/hrmosaic/agent/dates.py:185-206 | a passage whose claims are kept, dropped or said otherwise: the text of one pass, and a second pass leaves it exactly when every claim that was said otherwise is left |
| `Deadlines.DeadlinesSettle` | src/hrmosaic/agent/dates.py:121-207 | with the deadlines each claim's own repair gives, a second pass leaves the passage exactly when every restated claim meets the condition on its years |
| `Arithmetic.Decompose` | src/hrmosaic/agent/arithmetic.py:163-186 | a working is printed exactly when the total is known and the signed amounts sum to it |
| `Arithmetic.Terms` | src/hrmosaic/agent/arithmetic.py:144-155 | the terms found are those of the term expression's matches, left to right |
| `Arithmetic.LabelEndsExactly` | src/hrmosaic/agent/arithmetic.py:82-88 | a term's label runs up to the first comma, semicolon, or plus, minus or and as a word of its own |
| `Arithmetic.ReadsBack` | src/hrmosaic/agent/arithmetic.py:82-88 | what is read of any printed working, term by term, with the sign the reader sees |
| `Arithmetic.WordsResolve` | src/hrmosaic/agent/arithmetic.py:53-71 | each word the printer uses resolves to its own balance field, and to no earlier entry of the table |
| `Arithmetic.SoundExactly` | src/hrmosaic/agent/arithmetic.py:189-204 | a working is sound beside a total exactly when it has terms, they come to the total within the tolerance, and none that is not zero names a field the balance has at zero |
| `Arithmetic.KeptExactly` | src/hrmosaic/agent/arithmetic.py:144-186 | the amounts read back sum to the total exactly when each keeps its sign; misreadings never cancel out |
| `Arithmetic.WorkingRoundTrip` | src/hrmosaic/agent/arithmetic.py:144-204 | for every balance whose working is printed, it reads back as its own signed amounts, and passes for sound, exactly when the balance keeps its signs |
| `Arithmetic.SignedSum` | src/hrmosaic/agent/arithmetic.py:163-186 | the signed amounts of a working sum to the balance |
| `Arithmetic.SubtractedFirstAmountIsMisread` | src/hrmosaic/agent/arithmetic.py:180-183 | four used days and ten carried over, none accrued: the working printed for the six that remain reads as fourteen and is found unsound |
| `Workings.Correct` | src/hrmosaic/agent/arithmetic.py:207-237 | given a balance, the passage is that of the specification: each unsound parenthesis gives way to the balance's own working, or is gone with the blanks in front of it |
| `Workings.WorkingsAnswered` | src/hrmosaic/agent/arithmetic.py:207-237 | one pass over a passage: each sound working stands, each unsound one gives way to the balance's own, and where that is not known it is gone with the blanks in front of it |
| `Workings.WorkingsSettle` | src/hrmosaic/agent/arithmetic.py:207-237 | for every passage, balance and total, a second pass over the corrected passage changes nothing |
| `Workings.ReplacedIsSound` | src/hrmosaic/agent/arithmetic.py:189-235 | beside any total the working put in is sound exactly when its amounts as read come to that total, and beside the balance's own exactly when the balance keeps its signs |
| `ComplianceRows.EngineSteps` | src/hrmosaic/agent/compliance.py:363-381 | the steps of all the verdicts, each once |
| `ComplianceRows.ReadInOrder` | src/hrmosaic/agent/compliance.py:330-381 | the verdicts are read in their order, requirements and steps |
| `Lists.DistinctInOrder` | src/hrmosaic/agent/compliance.py:381 | de-duplication keeps every element once, in the order of the first occurrences |
| `ComplianceRows.EngineRows` | src/hrmosaic/agent/compliance.py:330-360 | one row per requirement, the latest verdict on it, in the place in which the requirement came up first |
| `ComplianceRows.SupportsExactly` | src/hrmosaic/agent/compliance.py:384-409 | a step is placed exactly when one row with evidence shares more of its words than any other such row, and at least three |
| `ComplianceRows.SupportIgnoresOrder` | src/hrmosaic/agent/compliance.py:384-409 | the answer is the same for every order of the rows |
| `ComplianceRows.UncheckedIsExact` | src/hrmosaic/agent/compliance.py:412-434 | blocking and other unverified rows are listed apart, each as often as the verdict has it |
| `ComplianceRows.BlockingLinesFirst` | src/hrmosaic/agent/compliance.py:412-434 | the lines of the unverified blocking rows come first, and those of the other unverified rows behind them |
| `ComplianceRows.UncheckedInOrder` | src/hrmosaic/agent/compliance.py:412-434 | in each class the unverified rows stand in the engine's order |
| `StepWords.SplitBlanked` | src/hrmosaic/agent/compliance.py:437-439 | splitting the blanked text gives the words of the text |
| `StepWords.KeyDecidesWords` | src/hrmosaic/agent/compliance.py:248-254 | two steps with one normalised key have the same claim-carrying words |
| `StepWords.KeyIsTheWords` | src/hrmosaic/agent/compliance.py:437-439 | two texts have one key exactly when they have the same words in the same order |
| `StepWords.ContentExactly` | src/hrmosaic/agent/compliance.py:248-254 | the words that count are the longest alphanumeric runs of the lower-case text that are no stop words |
| `StepWords.ScoreExactly` | src/hrmosaic/agent/compliance.py:384-409 | a row's score is how many of the step's words are words of its text or its caption |
| `Compliance.Correct` | src/hrmosaic/agent/compliance.py:517-542 | the repaired text, the rows restated and the rows left unverified are those of the specification |
| `Compliance.CorrectedInPlace` | src/hrmosaic/agent/compliance.py:517-542 | a sentence that opposes one single row gives way to that row's result in its place; every other sentence stands, and none is added |
| `Compliance.UnverifiedIsExact` | src/hrmosaic/agent/compliance.py:527-541 | a row is left unverified exactly when a standing sentence opposes it beside another row, or opposes none and is unsure of it |
| `Compliance.CorrectSettles` | src/hrmosaic/agent/compliance.py:517-542 | the exact condition under which a corrected text is left alone by a second pass |
| `Compliance.SecondPassCanChange` | src/hrmosaic/agent/compliance.py:456-542 | a standing rule and an unmet balance, and a text for which the sentence put in by the first pass is itself replaced by the second |
| `Compliance.CeilingsGiveWay` | src/hrmosaic/agent/compliance.py:607-627 | of the sentences of the text that leaves the pass, in order: one that quotes an outgrown ceiling is answered by the tier that applies, or is gone where there is none, and every other stands |
| `Compliance.NoOutgrownCeilingIsLeft` | src/hrmosaic/agent/compliance.py:607-627 | no sentence of the text quotes an outgrown ceiling any more, if the tier that applies does not |
| `Compliance.CorrectCeilings` | src/hrmosaic/agent/compliance.py:607-627 | the text and whether it was cut are those of the specification |
| `Compliance.AuthorityGivesWay` | src/hrmosaic/agent/compliance.py:662-669 | of the sentences of the text that leaves the pass, in order: up to the first that names the lower authority they stand, that one gives way to the routing, and behind it the others of its kind are gone |
| `Compliance.CorrectAuthority` | src/hrmosaic/agent/compliance.py:630-669 | the text and whether it was routed are those of the specification |
| `Compliance.BuildMandate` | src/hrmosaic/agent/compliance.py:696-698 | the dictionary of engine steps is that of the specification |
| `Compliance.MandateByStep` | src/hrmosaic/agent/compliance.py:696-698 | a key is mandated exactly when some step has it, and every such step restates the row it is paired with |
| `Compliance.RetypedIsOwnRule` | src/hrmosaic/agent/compliance.py:545-570 | only a recommendation changes its kind, and one that becomes a policy fact restates a row with evidence that no other row rivals |
| `Compliance.RetypedExactly` | src/hrmosaic/agent/compliance.py:545-570 | a recommendation becomes a policy fact exactly when it says an engine step that restates a row, a record exactly when it says another step or was rewritten, and stays otherwise |
| `Compliance.Apply` | src/hrmosaic/agent/compliance.py:672-745 | the served blocks and next steps are those of the specification; block by block and step by step they are as `Served.AnswerExactly` and `Served.StepsExactly` say |
| `Compliance.ServedBlocksCiteTheirRule` | src/hrmosaic/agent/compliance.py:705-745 | apart from the one note of unverified rows every served block comes from a block whose citations it keeps; a policy fact minted from an uncited recommendation cites exactly the chunk of the row its step restates |
| `Compliance.UnverifiedRowsAreSaidOnce` | src/hrmosaic/agent/compliance.py:741-745 | after the step every line is in the answer, and doing it again adds nothing |
| `Served.OpposedExactly` | src/hrmosaic/agent/compliance.py:517-542 | a sentence is answered by a row exactly when it opposes that row and no other |
| `Served.AnswerExactly` | src/hrmosaic/agent/compliance.py:696-745 | each block in its place with the text that answering the rows, cutting the ceilings and rerouting leave of it, in that order, its own identity and marker, and the kind and citation that text earns it; gone only where a cut or a routing left nothing; behind them one note of the unverified rows not yet said |
| `Served.StepsExactly` | src/hrmosaic/agent/compliance.py:728-737 | each next step in its place as answering the rows and cutting the ceilings leave it, gone only where a cut left nothing |
| `Client.McpClient.Enter` | src/hrmosaic/agent/client.py:428-450 | a caller gets a catalog whose connection is the published one and has touched nothing, or holds the lock for a handshake nobody has seen |
| `Client.McpClient.Publish` | src/hrmosaic/agent/client.py:466-482 | nothing of an earlier handshake is left; there is a catalog exactly when the schemas are valid, and then a call can go out unless the session has ended |
| `Client.McpClient.Close` | src/hrmosaic/agent/client.py:333-342 | no call goes out on the closed connection, and every other one serves as before |
| `Client.McpClient.Reset` | src/hrmosaic/agent/client.py:484-490 | no handshake serves a call any more, and the session that was published is closed |
| `Client.McpClient.MustRediscover` | src/hrmosaic/agent/client.py:541-544 | a call re-discovers exactly when no handshake can serve it |
| `Client.EventLoop.Handle` | src/hrmosaic/agent/client.py:428-547 | one task resumes on the shared client: fields and places are those of the next step of the machine, and the invariant is kept |
| `Client.Serve` | src/hrmosaic/agent/client.py:428-547 | for every sequence of events the objects end where the run of the machine ends, so that what holds of every run holds of them |
| `Client.RunKeeps` | src/hrmosaic/agent/client.py:428-547 | the invariant holds after every interleaving of discover, reset, call, cancellation and lost sessions |
| `Client.OneHandshakeAtATime` | src/hrmosaic/agent/client.py:428-482 | handshakes never overlap, and none is under way while there is a catalog |
| `Client.CatalogHasItsConnection` | src/hrmosaic/agent/client.py:456-490 | a catalog always comes from the same handshake as the connection |
| `Client.ConnectionWithoutCatalog` | src/hrmosaic/agent/client.py:466-490 | over every run a published connection has no catalog exactly when its schemas were malformed |
| `Client.DiscoverReturnsTheCatalog` | src/hrmosaic/agent/client.py:428-454 | when discover returns, its catalog is the client's, so the assertion behind the lock never fails, and the cached flag is right |
| `Client.CallAfterDiscovery` | src/hrmosaic/agent/client.py:541-547 | a call that re-discovered goes out on the session of its own catalog, or is refused because that session ended |
| `Client.HandshakesAreCached` | src/hrmosaic/agent/client.py:428-490 | completed handshakes never exceed resets by more than one |
| `Client.NoSessionIsLost` | src/hrmosaic/agent/client.py:456-490 | over every run an open session belongs to the published connection or to a handshake under way exactly when its handshake was not cancelled and nothing was published over it, which happens only to malformed ones |
| `Client.LockIsReleased` | src/hrmosaic/agent/client.py:428-482 | over every interleaving a task that keeps the lock is answered at most twice while it does |
| `Client.LockCanBeFreed` | src/hrmosaic/agent/client.py:428-482 | from every reachable world with the lock taken, at most two answers to its holder leave it free |
| `Client.StaleCallIsServed` | src/hrmosaic/agent/client.py:541-547 | from every reachable world with the lock free a call that finds no catalog, or a session that ended, goes out on the session of a handshake of its own once the server has answered |
| `Client.MalformedSchemaLosesASession` | src/hrmosaic/agent/client.py:466-482 | a run that reaches a connection without a catalog, and then one published over it while its session is open |
| `Judges.Pacer.constructor` | evaluation/judges.py:78-82 | the interval is a minute over the rate, and none for no rate |
| `Judges.Pacer.Wait` | evaluation/judges.py:84-90 | the caller is released no earlier than its turn and the next turn is one interval later |
| `Judges.ReleasesApart` | evaluation/judges.py:84-90 | over every run of sequential waits two releases are as many intervals apart as there are between them |
| `Judges.AtMostRpmPerMinute` | evaluation/judges.py:70-90 | for any clock and any sleep that is not cut short, no half-open minute holds more than rpm releases |
| `Judges.AtMostRpmCallsPerMinute` | evaluation/judges.py:305-402 | over every run of questions, repairs and re-sends included, no half-open minute holds more than rpm provider calls, and every call is counted |
| `Judges.Judge.constructor` | evaluation/judges.py:281-296 | a new judge has called nothing and has a pacer of its own, at the rate it was given |
| `Judges.Judge.Send` | evaluation/judges.py:323-327 | every provider call is released by the pacer first, and is numbered and counted |
| `Judges.Judge.Complete` | evaluation/judges.py:305-343 | the reply, every counter, every sleep and the releases of the pacer are those of the specification loop |
| `Judges.Judge.Ask` | evaluation/judges.py:345-402 | one question: the verdict and the ledger are those of the specification |
| `Judges.CompletedIsFirstAnswer` | evaluation/judges.py:305-343 | the reply is the first that is not a rate-limit refusal, a refusal only if all attempts were; every refusal absorbed is counted and slept for, as long as it asks or twice as long as for the one before, up to the cap |
| `Judges.RepairIsSpentOn` | evaluation/judges.py:345-402 | the second completion is asked for exactly when the first gave no usable verdict, and failures count exactly the null verdicts |
| `Judges.CallsAreAccountedFor` | evaluation/judges.py:305-402 | over every run of questions each is recorded once and every call is a refusal absorbed, a question or a single repair |
| `Canonical.SortedIsUnique` | src/hrmosaic/core/canonical.py:29 | a strictly sorted list is determined by its entries |
| `Canonical.NormalDecides` | src/hrmosaic/core/canonical.py:29 | key-sorted forms are equal exactly when the values are, at any depth |
| `Canonical.EscapeUnambiguous` | src/hrmosaic/core/canonical.py:29 | a JSON string with any text behind it is parsed in one way (RFC 8259 section 7) |
| `Canonical.DumpUnambiguous` | src/hrmosaic/core/canonical.py:29 | a tightly printed value with any text behind it is parsed in one way |
| `Canonical.CanonicalIsExact` | src/hrmosaic/core/canonical.py:21-29 | equal bytes exactly when the argument sets are equal without the top-level token, whatever the insertion order at any depth |
| `PersistedText.PersistedHolds` | evaluation/deterministic.py:636-657 | a token is in the persisted text exactly when it is in the text written for one item |
| `PersistedText.NoLeakIsMissed` | evaluation/deterministic.py:636-657 | a token in any persisted text is found |
| `PersistedText.NoticesExactly` | evaluation/deterministic.py:636-657 | a token is found exactly when some text has it, or an escaped control character or the word written for a missing answer looks like it |
| `PersistedText.NoticesExactlyLeaks` | evaluation/deterministic.py:636-657 | the verdict on a token is right exactly when some text has it or nothing looks as if it had |
| `PersistedText.PrintableTextsRaiseNoAlarm` | evaluation/deterministic.py:636-657 | a token of more than four characters is found exactly when some text has it, if no text has a control character |
| `PersistedText.EscapeCanLookLikeAToken` | evaluation/deterministic.py:636-657 | for every token that begins with n: a line feed in front of the rest of it is taken for the token, which the text does not have |
| `ActionSafety.IndexTokens` | evaluation/deterministic.py:573-578 | the dictionary has the row of each token |
| `ActionSafety.IndexConfirmations` | evaluation/deterministic.py:581-588 | the two dictionaries have exactly the confirmation spans and the confirmed ones, under their turns |
| `ActionSafety.CheckCalls` | evaluation/deterministic.py:590-602 | one finding, in order, for each write call without an earlier confirmed confirmation |
| `ActionSafety.NextCall` | evaluation/deterministic.py:616-626 | the first successful call of the tool in the turn, none exactly when there is none |
| `ActionSafety.CheckWrite` | evaluation/deterministic.py:604-634 | the findings on one write, in order |
| `ActionSafety.CheckTokens` | evaluation/deterministic.py:655-657 | one finding per token found |
| `ActionSafety.ActionSafetyViolations` | evaluation/deterministic.py:557-658 | the list is that of the specification and is empty exactly when the four clauses hold; on the rows of the store they are those of `StoreSafety.SafeExactly` |
| `ActionSafety.CleanExactly` | evaluation/deterministic.py:557-658 | sound and complete: empty on a store exactly when the four quantified clauses hold of it |
| `StoreSafety.SafeExactly` | evaluation/deterministic.py:557-658 | nothing is found exactly when the four clauses hold of the rows as they stand, field by field |
| `StoreSafety.FindingsExactly` | evaluation/deterministic.py:604-634 | a write is found fault with for each thing that is wrong with it and for nothing else; where no row has its token that alone is said |
| `StoreSafety.NoTokenSurvives` | evaluation/deterministic.py:636-658 | on a clean store no span payload, no final answer and no message content has a token |
| `StoreSafety.TurnStores` | evaluation/deterministic.py:564-653 | what is searched for one turn: the payloads of its spans, its answer, and the messages of its spans |
| `StoreSafety.TurnLeaksExactly` | evaluation/deterministic.py:636-657 | a token is found for a turn exactly where the turn persists a text that shows a token of the table |
| `ActionSafety.FindingsOfTurn` | evaluation/deterministic.py:564-634 | for clauses 1 to 3 a turn's findings are the store's findings about that turn, in order |
| `ActionSafety.CleanTurnByTurn` | evaluation/deterministic.py:557-634 | the store is clean exactly when every turn is and no write is without a turn |
| `ActionSafety.StrayWriteEscapesEveryTurn` | evaluation/deterministic.py:579-634 | a store with findings none of whose turns has any |
| `ActionSafety.CleanStoreLeaksNothing` | evaluation/deterministic.py:636-658 | on a clean store no token is in any of the texts searched, which are those of `StoreSafety.NoTokenSurvives` |
| `ActionSafety.WritesAreAsApproved` | evaluation/deterministic.py:604-634 | on a clean store each write was confirmed, and the call compared had the arguments approved, whatever their key order |
| `ActionSafety.DifferentArgumentsAreFound` | evaluation/deterministic.py:616-630 | on a write otherwise in order the arguments are the only finding, made exactly when they differ from those approved |
| `ActionSafety.OwnCallIsCleared` | evaluation/deterministic.py:616-630 | a write otherwise in order, whose own call had the approved arguments, is cleared exactly when the first successful call of the tool in the turn had the same arguments |
| `ActionSafety.SecondTicketIsFaulted` | evaluation/deterministic.py:604-634 | two tickets on different subjects in one turn, each confirmed and filed as approved: one finding is made, about the second's arguments |
| `ActionSafety.OnlyCallIsCompared` | evaluation/deterministic.py:616-626 | the call compared is the write's own when the tool succeeded only once in the turn |
| `Headings.SectionsFromHeadings` | scripts/check_facts.py:150-172 | title and sections are those of the specification fold |
| `Headings.BodyIsConserved` | scripts/check_facts.py:150-172 | the section bodies in order are all the body lines in order, and there is one more section than headings |
| `Headings.TitleIsLast` | scripts/check_facts.py:150-172 | the title is the text of the last title line, and empty where there is none |
| `Headings.BodiesAreBetweenHeadings` | scripts/check_facts.py:150-172 | the body of each section is exactly the body lines between its own heading and the next |
| `Headings.SectionEndIs` | scripts/check_facts.py:150-172 | the k-th section ends before the k-th heading, the last one with the document |
| `Headings.StackIsOpenHeadings` | scripts/check_facts.py:150-172 | the running stack is exactly the headings no title and no heading at their level or a shallower one has closed |
| `Headings.PathsAreOpenHeadings` | scripts/check_facts.py:145-172 | each section's path is exactly the headings open where its body is |
| `Headings.PathsDeepen` | scripts/check_facts.py:145-172 | levels strictly increase along every path |

## Left out

- Regular-expression vocabularies (verb lists, denials, amounts, names) are arbitrary tests; the lemmas that need it assume that surrounding whitespace does not matter to a test and, for denials, that a text passes exactly when one of its sentences does.
- Outcome.Apply: the lists it returns beside blocks and steps (replaced, dropped, trimmed, emptied, retyped) are not modelled; the amendment of an earlier write, which follows on a turn that wrote nothing, is `Amendment.AmendAnswer`, and a prior write without an id or a tool, which amends nothing, is not modelled.
- Compliance.Apply: the bookkeeping lists (restated, unverified, retyped and the counts of rewritten sentences) are not collected over the blocks and steps; the wording of an engine sentence and of a not-stated line is an arbitrary function of the row.
- Compliance.CorrectSettles: is about `correct` alone, not about the ceiling and authority passes behind it.
- Served.AnswerExactly, and the laws of the three passes: take it that each sentence the engine puts in is read as one sentence; Served.StepsExactly likewise.
- Passages.Correct: is given the matches of the claim expression and what `_repair` makes of each; finding them, and the weekday substitution that follows over the whole passage, are not part of this model.
- Deadlines.DeadlinesSettle: takes the second pass to find the mended claims again, and nothing new where a claim was dropped; the search of the claim expression is not modelled.
- Workings.Correct: is given the matches of the decomposition expression and a balance; without an envelope the source returns the text as it is.
- Workings.WorkingsSettle: takes the second pass to find the mended parentheses again, and no new one; a working of one amount is no longer found, and so left.
- QuietTurn.QuietTurnSettles: assumes that a text passes the record split's tests exactly when one of its sentences does; an envelope value with a sentence boundary inside it is not covered.
- `arithmetic.restate`, `statement`, `expired_note`, `forfeit_note`, and the advisory branches of `breadth`: string formatting over values already modelled.
- Floating point: balance amounts are exact tenths, clock readings and sleeps exact reals.
- Text is ASCII where a pattern says `\d`, `\w` or `[a-z]` and in lower-casing; whitespace is Python's own.
- Dates are assumed to stay inside Python's range; `date(...)` raising on a bad day is modelled.
- `_assemble` (scripts/check_facts.py:145-147): joining a path and a body into strings, and stripping the body.
- Judges.Judge.Ask: the wording of the repair message and the payload that is recorded; what is counted is that one is.
- Headings.SectionsFromHeadings: is given lines already classified; the Markdown, HTML and text readers are not part of this model.
- `action_safety_violations` with an empty turn id binds a parameter to a query that has none; the model has no such call. Rows are given in the order of the query.
- `tool_scores`, `f1` and the other scores of `evaluation/deterministic.py`: short formulas over sets.
- Python's equality of `True` and `1` inside arguments, and floats, which JSON arguments here do not have.
- `_Connection`: its background task, events and the handing over of errors appear as the answers of an open and of a close.
- The wire, the subprocess, the HTTP client and the session id header of the MCP client; the server is whatever answers an await.
- Judges.Pacer.Wait: is for sequential callers; two tasks inside one wait, and one pacer shared by several judges, are not modelled.
- Redaction is an arbitrary function of a block's text.
