# Verified models of the tools in this repository

The project models the parts of the repository whose correctness is an argument rather than a glance: the
merge of translation databases in the Babylon tool, the game text store and the string banks of the launcher,
the loader of the debug help library, the scripts that rewrite C headers, and three small exact algorithms.
Code that changes things step by step is modelled as methods on objects and arrays, proved against a
functional form of the same code; what the code promises is then proved about the functional form.

## Files

- **Babylon merge.** `TextKeys`, `Selections`: how the hash bins compare strings, and lists picked by marks.
  `BabylonLabel`, `BabylonDatabase`: `UpdateLabel` and `UpdateDB` on values. `BabylonLabelLaws`,
  `BabylonDatabaseLaws`, `BabylonConservation`: convergence, exactness of the check, skips, conservation.
  `BabylonAnswers`, `BabylonAccounts`: what the dialogs of a call and of a run make of every text, answer by answer.
  `BabylonRepeat`: the run behind a complete update. `BabylonChains`: which sources keep old strings.
  `BabylonErrors`, `BabylonSources`: the error count a source must pass, what it buys, and whole histories of runs.
  `BabylonObjects`, `BabylonUpdate`, `BabylonReload`: the operations on label, text and database objects, with the
  matched pointers, the text bin and the obsolete list they change in place, and the dialog that calls them.
- **Game text.** `RamFile`, `StripSpaces`, `CsfFormat`, `CsfParser`: the compiled string file. `StringFile`,
  `StringFileParser`: the text form and its two passes. `StringFileWriter`: such files written in every layout and
  read back. `LookupOrder`, `LookupTable`: the sorted table, `fetch`
  and the list of missing texts.
- **Locale.** `LocaleFormat`: the layout of a .loc file and the two ways to look a string up. `LocaleBanks`: the
  eight banks as a state machine, and who owns their memory. `Locale`: the functions of the API on the stream.
  `LocaleWriter`: .loc files written byte by byte and read back on both ways.
- **Debug help loader.** `DbgHelpLoader`: the state machine with its trace, and the globals that refine it.
- **Scripts.** `Directives`: conditional inclusion (section 6.10.1 of ISO/IEC 9899:2011). `IncludeGuards`,
  `GuardLaws`, `GuardChoices`, `MscGuards`, `PragmaSpacing`, `PragmaRuns`: the three rewriters of preprocessor lines
  and the spacing script.
- **Small algorithms.** `Ampersands`, `PerfSummary`; `Sorting` stands for the library sorts.

## Where the code does something else than its documentation

For each point that is a failure there is a lemma with a concrete input, named first, and a theorem with the
exact condition.

- The Babylon bins compare length, character sum and text ignoring case, so a destination label whose name is
  spelled differently is taken for the source's and keeps its spelling (`OtherSpellingStays`); a complete update
  leaves exactly the source's labels if and only if every label their names find has their very spelling
  (`AcceptedUpdate`). A check does not see the spelling either (`CheckMeansAgreement`).
- A check still clears retranslate marks; it leaves the database as it is if and only if no matched text
  carries one (`CheckClearsMark`; `CheckDbIsExact`). A deleted label without strings adds nothing to the change
  count (`EmptyLabelIsNotCounted`; `CheckDbIsExact`).
- The comments of `locale.cpp` allow files without an index; `readheader` refuses every one of them
  (`UnindexedNeverLoads`). An index whose string table fails to load is never freed (`ShortIndexLeaks`;
  `RestoreBalances`).
- The guard rewriters skip every line that ends in a comment on the way to the `#define`, directives included
  (`CommentedEndifMisleads`; `MatchEndifCloses`), and do not look at `#else` and `#elif` (`OwnElseBreaks`;
  `RemoveKeepsStructure`).
- The `_MSC_VER` script goes back one line after a change, which is not enough behind a blank line
  (`BlankHidesBlock`; `NothingLeftExactly`).
- The spacing script does not correct its recorded line numbers when it deletes blank lines above a pragma, and
  may then pull other lines apart (`ThreeBlanksPullApart`; `UntouchedExactly`, for texts with one pragma). Nor does
  it when it puts a blank line below one, and may then miss the next (`SecondIsMissed`; `SeveralAreSpaced` has a
  condition under which it misses none).

## What `UpdateDB` relies on

The dialog calls `UpdateDB` only for a source in which `TransDB::Errors` counts nothing (`Reload`). The count is 0
if and only if no two labels are one key, no label repeats a text key, no text is too long and, in single-text
mode, no label has two texts (`NoErrorsExactly`). For these sources the operation does what it is for
(`AcceptedUpdate`), over every history of runs (`HistoryConverges`, `HistoryConserves`, `HistoryMovesOldTexts`).
On its own it promises less, and exactly this:

- Two labels of one key: a complete update leaves the source's labels if and only if there is no such pair and no
  other spelling (`UpdateDbConvergesExactly`). "aB" and "Ab" are such a pair (`DifferentNamesMayClash`).
- A string that repeats a key inside a label is a fatal error, as soon as the destination label holds that key
  (`RefusedIsFatal`). After a complete update, with distinct label keys, every further run counts one skip for each
  label that does, and nothing else (`SecondRunIsIdle`; `RepeatedKeyIsReported` is one).
- With two labels of one key the second can drop what the first brought, so that the obsolete list gets a string
  the destination never had (`ClonedThenDropped`). No destination and no user sees this if and only if, along each
  chain of source labels of one key that a run can merge, every next one is refused or has all keys of the one
  before it, and those are distinct; or, with one string per label, no empty one follows one with a string
  (`KeepsOldTextsExactly`).

## Conventions

Strings that end in a zero are sequences without it; `CString` cuts a buffer at its zero. Case folding is that
of the "C" locale, which folds ASCII letters only. What the user, the operating system or the file system
answers is a parameter: the presses in a dialog are a function from the number of the dialog, an opened file is
its content. Assertions of the source on its own state are demands on the caller; its assertions on file
content do nothing, as in a release build. A text bin is the list of its texts in the order in which it got
them; the functional forms take the order of a label's texts in the bin as a parameter, and every law holds for
all orders. `-1` stands for a null pointer in a matching.

## Model

| member | source | states |
|---|---|---|
| `BabylonReload.Reload` | Core/Tools/Babylon/BabylonDlg.cpp:1305-1422 | the dialog on two loaded databases: it counts the source's errors; if there are none it runs a check, and an update when the check finds changes and the user agrees; the destination then is what the functional history of these runs says, the source keeps every value, and no text object is lost |
| `BabylonReload.Errors` | Core/Tools/Babylon/TransDB.cpp:1525-1635 | `TransDB::Errors` on objects, with its two bins, counts what the functional form counts |
| `BabylonErrors.NoErrorsExactly` | Core/Tools/Babylon/TransDB.cpp:1554-1610 | the count is 0 if and only if no two labels are one key, no label repeats a text key, no text is longer than its label allows, and in single-text mode no label has two texts |
| `BabylonSources.AcceptedUpdate` | Core/Tools/Babylon/BabylonDlg.cpp:1382-1475 | an update from a source without errors, for every destination and user: only old texts reach the obsolete list, up to their marks and each at most once; when no label is skipped the destination has exactly the source's labels by key, and by name if and only if none was spelled differently, and a further run with this source, check or update, asks nothing, counts nothing and changes nothing |
| `BabylonSources.HistoryKeepsOrder` | Core/Tools/Babylon/BabylonDlg.cpp:1382-1475 | over every history of checks and updates from such sources labels stay distinct keys, and have at most one text in single-text mode |
| `BabylonSources.HistoryConverges` | Core/Tools/Babylon/BabylonDlg.cpp:1382-1475 | in every such history a complete update leaves exactly the source's labels by key, and the run after it is idle |
| `BabylonSources.HistoryConserves` | Core/Tools/Babylon/BabylonDlg.cpp:1787-1854 | over every history, whatever the sources, the translations in database and obsolete list are those at the start and those of clones of source texts, and the obsolete list only grows |
| `BabylonSources.HistoryMovesOldTexts` | Core/Tools/Babylon/BabylonDlg.cpp:1644-1665 | from sources without errors the obsolete list only ever gets texts that stood in the database before some run, with that value up to the mark |
| `BabylonUpdate.UpdateDb` | Core/Tools/Babylon/BabylonDlg.cpp:1725-1983 | `UpdateDB` on the objects of two databases: the destination's labels, texts and obsolete list, the returned change count and the number of questions are those of the functional `BabylonDatabase.UpdateDb`, for the text-bin orders the run met; the destination stays consistent and the source keeps every value. No text object is lost: each of the destination's texts is afterwards in one of its labels or at the end of the obsolete list, whose old part stays; all other texts in labels are new; and if no two source names are one key, the end of the obsolete list holds nothing but texts of the destination with their old values up to the mark |
| `BabylonObjects.UpdateLabel` | Core/Tools/Babylon/BabylonDlg.cpp:1491-1723 | `UpdateLabel` on objects: return code, counters, destination label, texts moved to the obsolete list and questions asked are those of the functional `BabylonLabel.UpdateLabel`; which texts the bin and the label then hold, and whom each text belongs to |
| `BabylonObjects.MatchEqualTexts` | Core/Tools/Babylon/BabylonDlg.cpp:1503-1534 | the first loop over source texts leaves mutual `Matched` pointers that spell the functional matching, or fails exactly when a text would be matched twice |
| `BabylonObjects.FindText` | Core/Tools/Babylon/TransDB.cpp:310-362 | `FindText` followed by `FindNextText` until the label fits finds the label's first text in bin order with the same key, or none |
| `BabylonObjects.AskUser` | Core/Tools/Babylon/BabylonDlg.cpp:1537-1592 | the second loop asks, matches and marks as the functional session does, for every answer of the user |
| `BabylonObjects.Ask` | Core/Tools/Babylon/MatchDlg.cpp:73-184 | what one answer in the match dialog or the retranslate dialog selects and marks |
| `BabylonObjects.RefreshTexts` | Core/Tools/Babylon/BabylonDlg.cpp:1596-1639 | the third loop: every matched text becomes what `Refresh` says, the counts of changed strings and waves, and the bin keeps its texts although changed ones are taken out and added again |
| `BabylonObjects.DropOld` | Core/Tools/Babylon/BabylonDlg.cpp:1644-1665 | the fourth loop: unmatched texts leave label and bin and go to the end of the obsolete list in order; a check only counts them |
| `BabylonObjects.AddNew` | Core/Tools/Babylon/BabylonDlg.cpp:1667-1687 | the fifth loop: one fresh clone for each unmatched source text, in order, in label and bin |
| `BabylonObjects.UpdateFields` | Core/Tools/Babylon/BabylonDlg.cpp:1478-1486 | `MACRO_UPDATE`: a field is overwritten and counted exactly when it differs beyond case |
| `BabylonUpdate.FindLabel` | Core/Tools/Babylon/TransDB.cpp:305-308 | the first label in list order with the same key, or none |
| `BabylonUpdate.CloneLabelObject` | Core/Tools/Babylon/TransDB.cpp:635-660 | a fresh label with fresh clones of all texts, equal in value |
| `BabylonUpdate.VisitLabel` | Core/Tools/Babylon/BabylonDlg.cpp:1757-1815 | one turn of the loop over source labels on objects is one functional `Visit`, and leaves the source as it is |
| `BabylonUpdate.SweepLabels` | Core/Tools/Babylon/BabylonDlg.cpp:1818-1857 | the loop over unprocessed labels on objects is the functional `Sweep`; the database stays consistent |
| `BabylonAnswers.UpdateLabelTold` | Core/Tools/Babylon/BabylonDlg.cpp:1491-1723 | every call of `UpdateLabel` without the fatal error, text by text and without its functional form: texts of one key pair up first in bin order; each dialog is about the next source text without a partner, and its answer picks the text on that row of the list of texts still free (or the one text) and sets its mark; IDOK comes exactly when no answer stopped and nothing is left to ask, IDCANCEL exactly after a Cancel. After IDOK an update leaves each text with a partner in its place with the partner's string and wave, its own translations, no mark, and a revision one higher exactly when it was marked, by its last answer or else on entry; then come copies of the source texts without a partner; dropped are the others as they were; every counter is the number of such texts or fields. Any other call leaves marks at most |
| `BabylonAnswers.FatalExactly` | Core/Tools/Babylon/BabylonDlg.cpp:1503-1534 | the fatal error comes exactly when two source texts reach the same text of the label, and changes nothing |
| `BabylonAnswers.DialogPicks` | Core/Tools/Babylon/MatchDlg.cpp:73-184 | the answer given in one dialog stops the call or picks and marks as it says: the row counts the texts still free |
| `BabylonAnswers.FindIsForemost` | Core/Tools/Babylon/TransDB.cpp:310-362 | the text search gives, of the texts of a key, the one first in the bin, and none only when there is none |
| `BabylonAccounts.UpdateDbTold` | Core/Tools/Babylon/BabylonDlg.cpp:1725-1983 | an update of a whole database from distinct names, label by label: the dialogs are numbered through the run and are skipped exactly behind the first Cancel; the label that answers to a source label ends up as `UpdateLabelTold` says, with the texts it dropped standing together in the obsolete list; for a source label without one a copy is added; when no skip is counted each call returned IDOK |
| `BabylonAccounts.UnreachedIsSwept` | Core/Tools/Babylon/BabylonDlg.cpp:1818-1857 | the texts of a label that no source label finds stand together, as they were, in the obsolete list |
| `BabylonAccounts.UpdateDbCounts` | Core/Tools/Babylon/BabylonDlg.cpp:1725-1983 | for every update and check the result is the sum of the counters but removed and modified labels; removed are the labels no source label finds; new, with distinct names, the source labels that find none |
| `BabylonAccounts.LookupIsFirst` | Core/Tools/Babylon/TransDB.cpp:305-308 | a name finds the first label of its key, and none only when there is none |
| `BabylonLabelLaws.UpdateConverges` | Core/Tools/Babylon/BabylonDlg.cpp:1594-1721 | after an update that returns IDOK the destination label has the source's multiset of strings, each with its wave ignoring case, the same metadata ignoring case and the same maximum length |
| `BabylonLabelLaws.SkipIsHarmless` | Core/Tools/Babylon/BabylonDlg.cpp:1545-1592 | a call that does not return IDOK keeps every string, wave and field, moves nothing and counts nothing |
| `BabylonLabelLaws.SkipStillMerges` | Core/Tools/Babylon/BabylonDlg.cpp:1553-1579 | with skipping on, a label that needs no question is merged exactly as without it, and any other is left as it is, without a question |
| `BabylonLabelLaws.LabelConserves` | Core/Tools/Babylon/BabylonDlg.cpp:1646-1687 | sizes and counters of one call balance, and the translations before are exactly those afterwards in the label and the obsolete list, plus those of the clones |
| `BabylonLabelLaws.LabelLineage` | Core/Tools/Babylon/BabylonDlg.cpp:1594-1687 | after an update every text of the label is a clone or descends from one it had: same translations, and its old value or the string and wave of a source text |
| `BabylonLabelLaws.MovedFromLabel` | Core/Tools/Babylon/BabylonDlg.cpp:1644-1665 | what a call moves to the obsolete list are texts of the label as they were up to the mark, each at most once |
| `BabylonLabelLaws.DryRunClearsMarks` | Core/Tools/Babylon/BabylonDlg.cpp:1598-1639 | a check asks nothing and moves nothing; a retranslate mark is set afterwards exactly when it was set before and the call did not finish or did not match the text, so the label stays as it is exactly when no matched text of a finished check carries a mark |
| `BabylonLabelLaws.CheckClearsMark` | Core/Tools/Babylon/BabylonDlg.cpp:1631-1638 | a label that agrees with its source but carries a mark: the check finds nothing and clears the mark |
| `BabylonLabelLaws.CheckIsExact` | Core/Tools/Babylon/BabylonDlg.cpp:1598-1719 | a check of one label finds nothing if and only if the label agrees with the source label and no two source strings share a key |
| `BabylonDatabaseLaws.UpdateDbConverges` | Core/Tools/Babylon/BabylonDlg.cpp:1755-1857 | after an update that skipped no label the destination has exactly the source's labels, name by name, each converged, when source names are distinct keys and find labels of their own spelling |
| `BabylonDatabaseLaws.UpdateDbConvergesExactly` | Core/Tools/Babylon/BabylonDlg.cpp:1755-1857 | that happens if and only if the source names are distinct as bin keys and each source name that finds a destination label finds one with that very name |
| `BabylonDatabaseLaws.DifferentNamesMayClash` | Core/Tools/Babylon/bin.cpp:225-259 | "aB" and "Ab" are different names with one key: of two such labels only one arrives |
| `BabylonDatabaseLaws.OtherSpellingStays` | Core/Tools/Babylon/bin.cpp:225-259 | source label "aB" meets destination label "Ab": the update keeps "Ab", and a check then finds nothing |
| `TextKeys.SwappedCaseIsOneKey` | Core/Tools/Babylon/bin.cpp:225-259 | `BinItem::Same` compares length, character sum and text ignoring case, so it is coarser than equality |
| `TextKeys.SameKeyExactly` | Core/Tools/Babylon/bin.cpp:225-259 | two strings are one key if and only if they differ at most in the case of ASCII letters and as many letters are capital in the one alone as in the other alone |
| `BabylonDatabaseLaws.CheckDbIsExact` | Core/Tools/Babylon/BabylonDlg.cpp:1757-1856 | a check changes nothing but marks and asks nothing; it leaves the database as it is if and only if no source label clears a mark; it returns 0 if and only if every source label passes and every destination label without one is empty |
| `BabylonDatabaseLaws.CheckMeansAgreement` | Core/Tools/Babylon/BabylonDlg.cpp:1757-1982 | with distinct names and no empty destination label, the databases agree name by name and no source key repeats if and only if a check returns 0 and no name is spelled differently |
| `BabylonDatabaseLaws.CheckAfterUpdate` | Core/Tools/Babylon/BabylonDlg.cpp:1755-1982 | a check right after a complete update returns 0 if and only if no source label repeats a string key |
| `BabylonRepeat.SecondRunIsIdle` | Core/Tools/Babylon/BabylonDlg.cpp:1594-1857 | straight after a complete update any further run with the same source asks nothing and leaves the database exactly as it is, marks included; it counts one skip for each source label that repeats a text key, and nothing else |
| `BabylonDatabaseLaws.RepeatedKeyIsReported` | Core/Tools/Babylon/BabylonDlg.cpp:1503-1534 | a source label with one string twice, cloned into an empty destination by a complete update, makes the check that follows return more than 0 |
| `BabylonDatabaseLaws.EmptyLabelIsNotCounted` | Core/Tools/Babylon/BabylonDlg.cpp:1818-1857 | a destination label without texts that no source label has is not counted by a check |
| `BabylonConservation.UpdateDbConserves` | Core/Tools/Babylon/BabylonDlg.cpp:1787-1854 | for all answers, skips and cancels: sizes move by `new_strings` and `deleted_strings` exactly; translations are conserved between database, obsolete list and clones; every text afterwards, in the database or newly obsolete, descends from an old text or a clone; and with distinct source keys the newly obsolete texts are old texts up to their marks, each at most once |
| `BabylonConservation.ClonedThenDropped` | Core/Tools/Babylon/BabylonDlg.cpp:1644-1665 | two source labels of one name, the second empty, and an empty destination: the text cloned for the first is in the obsolete list at the end, without a question |
| `BabylonChains.RefusedIsFatal` | Core/Tools/Babylon/BabylonDlg.cpp:1503-1534 | pairing equal strings is a fatal error if and only if the source label repeats a key that the destination label holds |
| `BabylonChains.KeepsOldTextsExactly` | Core/Tools/Babylon/BabylonDlg.cpp:1596-1665 | an update moves only old texts to the obsolete list, for every destination, bin order and user, if and only if each source label spares what the destination can agree with when its turn comes: it is refused or covers it with many texts to a label, and does not empty it with one |
| `BabylonConservation.AddedAreClones` | Core/Tools/Babylon/BabylonDlg.cpp:1787-1806 | everything an update adds is a clone of a source text |
| `BabylonDatabaseLaws.VisitAfterCancel` | Core/Tools/Babylon/BabylonDlg.cpp:1763-1786 | after a cancel a label that needs no question is merged as without the cancel, and any other stays |
| `BabylonDatabaseLaws.NoQuestionsAfterCancel` | Core/Tools/Babylon/BabylonDlg.cpp:1763-1772 | after the first cancel the rest of the run asks nothing |
| `CsfParser.GameTextManager.ParseCsf` | Core/Tools/Autorun/GameText.cpp:824-941 | `parseCSF` through its buffers fills the table with the entries of the functional parser, or fails when that does |
| `CsfFormat.CsfRoundTrip` | Core/Tools/Autorun/GameText.cpp:824-941 | for every table of labels with any number of strings that fit the buffers, written byte by byte with complemented characters, parsing gives each label, its stripped first string up to a code unit 0 or 0xFFFF, and its wave name; fewer than four bytes behind them change nothing, any others but a label make the parse fail |
| `CsfFormat.VisibleAll` | Core/Tools/Autorun/GameText.cpp:894-903 | a string without the code units 0 and 0xFFFF is visible as a whole, so the round trip returns all of it |
| `CsfFormat.BadStringIsRefused` | Core/Tools/Autorun/GameText.cpp:868-885 | a label whose first string has neither of the two string ids makes the parse fail |
| `CsfParser.FlipText` | Core/Tools/Autorun/GameText.cpp:894-903 | the complement loop in place |
| `RamFile.File.Read` | Core/Tools/Autorun/WSYS_RAMFile.cpp:211-237 | `RAMFile::read` delivers the next bytes, as many as there are, and advances by them; a closed file is left alone |
| `RamFile.ChunksJoin` | Core/Tools/Autorun/WSYS_RAMFile.cpp:211-237 | reading in two chunks is reading in one |
| `StripSpaces.StripInPlace` | Core/Tools/Autorun/GameText.cpp:383-424 | `stripSpaces` in place leaves the functional form in the buffer and touches nothing behind the text |
| `StripSpaces.Squeeze` | Core/Tools/Autorun/GameText.cpp:383-424 | its loop: the write cursor never passes the read cursor, and what is written is the stripped text so far |
| `StripSpaces.StripIsTidy` | Core/Tools/Autorun/GameText.cpp:383-424 | the result has no leading, trailing or doubled space and none next to a newline or tab |
| `StripSpaces.StripKeepsInk` | Core/Tools/Autorun/GameText.cpp:383-424 | all other characters are kept in order |
| `StripSpaces.TidyIsFixed` | Core/Tools/Autorun/GameText.cpp:383-424 | a tidy text is not changed |
| `StripSpaces.RedundantSpaceGoes` | Core/Tools/Autorun/GameText.cpp:383-424 | a space that does not stand between two characters other than spaces, newlines and tabs makes no difference; with the row above this determines the result for every text |
| `StripSpaces.StripTwice` | Core/Tools/Autorun/GameText.cpp:383-424 | a second run changes nothing |
| `StringFile.PassesAgree` | Core/Tools/Autorun/GameText.cpp:755-790 | the parsing pass gets through the file reading its lines at the positions of the counting pass if and only if no label line opens a quote that reads on |
| `StringFile.UnquotedLabelsArePlain` | Core/Tools/Autorun/GameText.cpp:948-1042 | that holds when no label line starts with a quote |
| `StringFile.TableFits` | Core/Tools/Autorun/GameText.cpp:948-1042 | then the parser completes no more entries than the counting pass found |
| `StringFileParser.TextFileReader.GetStringCount` | Core/Tools/Autorun/GameText.cpp:755-790 | the counting pass returns the number of END lines plus 500 |
| `StringFileParser.TextFileReader.ParseStringFile` | Core/Tools/Autorun/GameText.cpp:948-1042 | for every file the parsing pass can get through, also one whose labels it reads at other positions than the counting pass, and every table with room for its labels: the entries are those of the functional parser, nothing else is written, and FALSE comes exactly when the file ends inside a label |
| `StringFileParser.TextFileReader.Load` | Core/Tools/Autorun/GameText.cpp:275-312 | counting, making a table of that size and parsing into it in one piece: the table holds the functional parser's entries, for plain labels and whenever the parser needs no more entries than were counted, spare ones included |
| `StringFileParser.CountedTableIsLargeEnough` | Core/Tools/Autorun/GameText.cpp:755-790 | when no label line opens a quote that reads on, the parsing pass gets through and the table that the counting pass sized has room for its labels |
| `StringFileWriter.WrittenFileParses` | Core/Tools/Autorun/GameText.cpp:755-1042 | a .str file of any labels in any layout (indentation, comments, blank lines, remarks, quotes over several lines, backslash sequences, wave names behind blanks and =, several quotes or none in a label, END in any case) is read back: both passes get through at the same positions, the count is the number of END lines, and the table has for each label in order its name, the stripped text of its first quote, with newline for `\n`, tab for `\t` and a space for white space, and its wave name with an e behind a digit |
| `StringFileWriter.LoadWritten` | Core/Tools/Autorun/GameText.cpp:275-312 | loading such a file through the buffers gives a table of the END lines plus 500 entries that holds exactly those, and nothing else |
| `StringFileWriter.QuoteIs` | Core/Tools/Autorun/GameText.cpp:459-582 | one written quote, which loses the white space in front of its first line break, is read to its end with the meaning of its pieces |
| `StringFileParser.ReadToEndOfQuote` | Core/Tools/Autorun/GameText.cpp:459-582 | reads the quote body with white space flattened, and the wave name with its e after a digit, and consumes the file up to the end of the line; a quote cut short by a 0xFF byte leaves the text read so far unterminated and the wave name as it was |
| `StringFileParser.ReadLine` | Core/Tools/Autorun/GameText.cpp:1098-1118 | reads one line without its newline and stops behind it |
| `StringFileParser.RemoveLeadingAndTrailing` | Core/Tools/Autorun/GameText.cpp:430-452 | leaves the trimmed text in the buffer |
| `StringFileParser.TranslateCopy` | Core/Tools/Autorun/GameText.cpp:695-745 | writes the text with its backslash sequences resolved |
| `LookupTable.QSort` | Core/Tools/Autorun/GameText.cpp:320-333 | the table that `init` sorts is an ordered permutation of all entries |
| `LookupTable.BSearch` | Core/Tools/Autorun/GameText.cpp:1064 | finds an entry equal to the key ignoring case whenever there is one |
| `LookupTable.GameTextStore.Init` | Core/Tools/Autorun/GameText.cpp:253-333 | builds the sorted table over all entries |
| `LookupTable.GameTextStore.Fetch` | Core/Tools/Autorun/GameText.cpp:1048-1092 | returns the text of a matching entry whenever one exists; otherwise the missing text, remembered once |
| `LookupTable.MissingNamesLabel` | Core/Tools/Autorun/GameText.cpp:1066-1070 | the message of a failed fetch is MISSING: and the label in quotes, cut behind 255 characters |
| `LookupTable.MissingDiffers` | Core/Tools/Autorun/GameText.cpp:1066-1070 | labels of at most 244 characters have different messages |
| `LookupTable.MissingListIsExact` | Core/Tools/Autorun/GameText.cpp:1064-1090 | after any sequence of failed fetches the list holds exactly the missing texts, none twice |
| `LookupOrder.CompareZero` | Core/Tools/Autorun/GameText.cpp:1140-1146 | `compareLUT` gives 0 exactly for labels equal ignoring case |
| `LookupOrder.SameLabelExactly` | Core/Tools/Autorun/GameText.cpp:1140-1146 | labels are equal ignoring case exactly when they differ at most in the case of ASCII letters, place by place |
| `LookupOrder.CompareAt` | Core/Tools/Autorun/GameText.cpp:1140-1146 | labels are compared at their first difference, and a label comes before every longer one that starts like it |
| `LookupOrder.CompareChains` | Core/Tools/Autorun/GameText.cpp:1140-1146 | `compareLUT` is transitive, as sorting and searching need |
| `LocaleBanks.TwoPathsAgree` | Core/Tools/Autorun/locale.cpp:444-589 | for every well-formed indexed file, language and id, loading the table and asking `LOCALE_getstring` gives the text that the index names for the low 16 bits of the id, and null exactly when it names none, as `LOCALE_getstr` does on the whole file |
| `LocaleFormat.GetStrIsExact` | Core/Tools/Autorun/locale.cpp:824-863 | `LOCALE_getstr` returns null exactly when the file names no string for the id (its index has no entry with the low 16 bits of the id), and otherwise a pointer to the string it names, terminated |
| `LocaleFormat.NamesById` | Core/Tools/Autorun/locale.cpp:703-863 | an id of 16 bits is the id of the entry itself, and ids that differ by a multiple of 65536 name the same strings |
| `LocaleWriter.WrittenFileReads` | Core/Tools/Autorun/locale.cpp:28-77 | a .loc file written byte by byte for any strings, languages and ids, with or without an index, narrow or wide, is read back: `LOCALE_getstr` gives the string named for the id or null; with an index the file loads and `LOCALE_getstring` gives the same |
| `LocaleFormat.GetStringByIndex` | Core/Tools/Autorun/locale.cpp:703-730 | the binary search over the string ids is the functional lookup |
| `LocaleFormat.IndexOfIsExact` | Core/Tools/Autorun/locale.cpp:703-730 | on ascending ids the lookup finds the entry of a key when there is one, and only that |
| `LocaleFormat.LocaleGetStr` | Core/Tools/Autorun/locale.cpp:824-863 | `LOCALE_getstr`, with and without an index |
| `LocaleBanks.WellFormedLoads` | Core/Tools/Autorun/locale.cpp:444-589 | a well-formed indexed file loads in every language, and its two chunks fill the current bank |
| `LocaleBanks.UnindexedNeverLoads` | Core/Tools/Autorun/locale.cpp:464-507 | a file without an index never loads, although its documentation and `LOCALE_getstr` allow one |
| `LocaleBanks.RunKeepsInv` | Core/Tools/Autorun/locale.cpp:146-218 | in every run of calls the allocation count is its start plus the instance, the live banks and indices, the refused requests and the blocks left behind, and every string table has its index |
| `LocaleBanks.RestoreBalances` | Core/Tools/Autorun/locale.cpp:197-218 | `LOCALE_restore` brings the count back to its start if and only if no request was refused, nothing was left behind before, and every bank with an index has a string table |
| `LocaleBanks.RestoreLeavesOrphans` | Core/Tools/Autorun/locale.cpp:197-218 | what it leaves behind is exactly the indices without a string table |
| `LocaleBanks.ShortIndexLeaks` | Core/Tools/Autorun/locale.cpp:464-507 | a 24-byte file whose index chunk is cut short leaks one block |
| `LocaleBanks.OrphansStick` | Core/Tools/Autorun/locale.cpp:564-589 | a bank whose string table failed to load behind its index can neither be filled nor freed before `LOCALE_restore` |
| `LocaleBanks.BanksAreIndexed` | Core/Tools/Autorun/locale.cpp:732-775 | in every run a loaded bank has its index, so `LOCALE_getstring` never uses a plain array index |
| `Locale.LocaleApi.ReadHeader` | Core/Tools/Autorun/locale.cpp:444-507 | `readheader` on the stream changes slot and count as the functional form does, for every file |
| `Locale.LocaleApi.ReadStrings` | Core/Tools/Autorun/locale.cpp:509-562 | `readstrings` likewise |
| `Locale.LocaleApi.LoadTable` | Core/Tools/Autorun/locale.cpp:564-589 | `LOCALE_loadtable` likewise |
| `Locale.LocaleApi.FreeTable` | Core/Tools/Autorun/locale.cpp:638-655 | `LOCALE_freetable` likewise |
| `Locale.LocaleApi.Restore` | Core/Tools/Autorun/locale.cpp:197-218 | `LOCALE_restore` with its loop over the banks likewise |
| `Locale.LocaleApi.GetString` | Core/Tools/Autorun/locale.cpp:732-775 | `LOCALE_getstring` on a loaded bank |
| `Locale.LocaleApi.Galloc` | Core/Tools/Autorun/EZGIMEX.cpp:66-70 | `galloc` counts every request, also one for a negative size, which gets null |
| `Locale.LoadAskRestore` | Core/Tools/Autorun/locale.cpp:564-589 | initialise, load, ask and restore in one piece: the same text as `LOCALE_getstr`, and the count back at its start |
| `DbgHelpSteps.RunKeepsInv` | Dependencies/DbgHelp/DbgHelpLoader.cpp:138-336 | over every call sequence and operating system outcome: the process set exists exactly with a positive count, a positive count means failed or loaded but not both, a zero count means everything is reset |
| `DbgHelpSteps.OutcomeIsSticky` | Dependencies/DbgHelp/DbgHelpLoader.cpp:197-263 | `load` returns true exactly when the module is loaded, and a failed or loaded state lasts until the last `unload` |
| `DbgHelpSteps.FirstLoadExactly` | Dependencies/DbgHelp/DbgHelpLoader.cpp:191-263 | a first `load` succeeds exactly when the allocation, the directory, one of the two libraries and all functions are there; it has failed exactly when the allocation alone went well; the library is the system's when that one loads |
| `DbgHelpSteps.CallsAreExact` | Dependencies/DbgHelp/DbgHelpLoader.cpp:265-336 | answers and real calls of `SymInitialize`, `SymCleanup` and `unload` in every state: a handle is opened in a loaded library only and closed once, and the last `unload` resets everything |
| `DbgHelpSteps.EveryHandleIsCleanedUp` | Dependencies/DbgHelp/DbgHelpLoader.cpp:138-171 | each handle initialised gets exactly one real `SymCleanup` before the module is freed |
| `DbgHelpSteps.CleanAllCloses` | Dependencies/DbgHelp/DbgHelpLoader.cpp:138-149 | the clean-up loop ends and empties the set |
| `DbgHelpLoader.Loader.Load` | Dependencies/DbgHelp/DbgHelpLoader.cpp:197-263 | `load` on the globals is the functional step |
| `DbgHelpLoader.Loader.Unload` | Dependencies/DbgHelp/DbgHelpLoader.cpp:265-281 | `unload` likewise |
| `DbgHelpLoader.Loader.FreeResources` | Dependencies/DbgHelp/DbgHelpLoader.cpp:138-171 | `freeResources` with its loop likewise |
| `DbgHelpLoader.Loader.SymInitialize` | Dependencies/DbgHelp/DbgHelpLoader.cpp:290-317 | `SymInitialize` likewise |
| `DbgHelpLoader.Loader.SymCleanup` | Dependencies/DbgHelp/DbgHelpLoader.cpp:319-336 | `SymCleanup` likewise |
| `IncludeGuards.MatchEndifLoop` | scripts/cpp/remove_include_guards_pragma.py:106-118 | `match_endif` is the functional form |
| `IncludeGuards.MatchEndifLevel` | scripts/cpp/remove_include_guards_pragma.py:106-118 | it stops where the depth first comes down to zero |
| `IncludeGuards.MatchEndifCloses` | scripts/cpp/remove_include_guards_pragma.py:97-101 | the `#endif` it finds closes the guard's test if and only if the lines between test and `#define` are balanced |
| `IncludeGuards.FindGuardLoop` | scripts/cpp/remove_include_guards_pragma.py:60-104 | the nested loops of `find_guard` are the functional form |
| `IncludeGuards.FindGuardIsFirst` | scripts/cpp/remove_include_guards_pragma.py:60-104 | the guard found is the first in the window whose test has its `#define` as the next real line within the lookahead and an `#endif` behind; None means that no line of the window starts one |
| `GuardChoices.FindGuardExactly` | scripts/cpp/remove_include_guards_pragma.py:60-104 | `find_guard` gives a guard if and only if it is the first of the window, with its first `#define` and the `#endif` found for it |
| `IncludeGuards.RemoveGuardFromText` | scripts/cpp/remove_include_guards_pragma.py:120-167 | `remove_guard_from_text` is the functional form, with its reasons |
| `IncludeGuards.ReplaceGuardWithPragmaOnce` | scripts/cpp/replace_include_guards_with_pragma.py:130-203 | `replace_guard_with_pragma_once` likewise, with its insertion point |
| `GuardChoices.RemoveDecides` | scripts/cpp/remove_include_guards_pragma.py:120-145 | without `#pragma once`, without a guard in the first 150 lines, or without content in it a header stays unchanged, with that reason; any other changes |
| `GuardChoices.ReplaceDecides` | scripts/cpp/replace_include_guards_with_pragma.py:130-152 | the same with `#pragma once` as the reason to stay unchanged, and 200 lines |
| `GuardChoices.RemoveTakesExactly` | scripts/cpp/remove_include_guards_pragma.py:146-166 | a changed header keeps in order exactly the lines other than the guard's three and the blank ones behind its `#define`, above its test and above its `#endif`, without blank lines at either end |
| `GuardChoices.ReplaceTakesExactly` | scripts/cpp/replace_include_guards_with_pragma.py:153-202 | the same, with the pragma exactly between the lines before the guard and those from it on |
| `GuardLaws.RemoveKeepsLines` | scripts/cpp/remove_include_guards_pragma.py:146-166 | every line but the guard's three and blank ones is left, in order |
| `GuardLaws.ReplaceKeepsLines` | scripts/cpp/replace_include_guards_with_pragma.py:153-202 | the same, with one `#pragma once` where the guard began |
| `GuardLaws.ReplaceAddsOnePragma` | scripts/cpp/replace_include_guards_with_pragma.py:130-203 | the result has exactly one `#pragma once` |
| `GuardLaws.RemoveKeepsStructure` | scripts/cpp/remove_include_guards_pragma.py:60-167 | if directives nest and none sits between test and `#define`, the right `#endif` is taken out, and the result nests if and only if the guard has no `#else` or `#elif` of its own or the conditional around it can take them: it is open without an `#else`, and either the guard has no own `#else` or no branch of that conditional follows |
| `GuardLaws.ReplaceKeepsStructure` | scripts/cpp/replace_include_guards_with_pragma.py:67-203 | the same for the replacing script |
| `GuardLaws.OwnElseBreaks` | scripts/cpp/remove_include_guards_pragma.py:106-118 | a header with an `#else` of the guard's own, whose result no longer nests |
| `GuardLaws.CommentedEndifMisleads` | scripts/cpp/replace_include_guards_with_pragma.py:50-55 | a header where a skipped `#endif` that ends in a comment makes the script take out the wrong one |
| `GuardLaws.RewritersKeepMeaning` | scripts/cpp/remove_include_guards_pragma.py:120-167 | when the guard's test is true where it stands, the result lets through what the old lines let through, but for the guard's `#define`; tests may depend on all lines let through before them |
| `Directives.Unwrap` | scripts/cpp/remove_mscver_from_pragma.py:76-91 | a nested text taken out of a conditional of its own leaves the conditionals around it alone, and changes nothing when the test is true where it stands |
| `MscGuards.UnguardMscPragmaOnce` | scripts/cpp/remove_mscver_from_pragma.py:48-96 | `unguard_msc_pragma_once` terminates by line count and then lines left, is the functional form, and reports a change exactly when there is one |
| `MscGuards.UnguardKeepsNesting` | scripts/cpp/remove_mscver_from_pragma.py:48-96 | the result nests exactly when the text did, whatever the tests |
| `MscGuards.UnguardKeepsMeaning` | scripts/cpp/remove_mscver_from_pragma.py:48-96 | when every recognised `_MSC_VER` test is true the lines let through are the same, whatever the other tests depend on |
| `MscGuards.UnguardKeepsContents` | scripts/cpp/remove_mscver_from_pragma.py:76-88 | every line that is neither blank nor a conditional survives, in order |
| `MscGuards.NothingLeftExactly` | scripts/cpp/remove_mscver_from_pragma.py:48-96 | one run leaves no guarded `#pragma once` behind if and only if no recognised test is followed by a blank line, a nest that starts with a test and comes down to a `#pragma once`, and an `#endif` |
| `MscGuards.NothingLeftWhenTight` | scripts/cpp/remove_mscver_from_pragma.py:90-91 | in particular none is left when no recognised test has a blank line right behind it |
| `MscGuards.BlankHidesBlock` | scripts/cpp/remove_mscver_from_pragma.py:90-91 | a text with such a blank line where one run leaves a guarded `#pragma once` |
| `PragmaSpacing.NormalizePragmaOnceSpacing` | scripts/cpp/harmonize_linebreaks_pragmaonce.py:30-114 | `normalize_pragma_once_spacing` terminates though it inserts and deletes lines under its loop, and is the functional form |
| `PragmaSpacing.SpacingKeepsLines` | scripts/cpp/harmonize_linebreaks_pragmaonce.py:30-114 | the lines that are not blank are kept in order, for every input |
| `PragmaSpacing.FirstPragmaIsSpaced` | scripts/cpp/harmonize_linebreaks_pragmaonce.py:49-107 | exactly one blank line follows the first pragma, and exactly one precedes it when anything stands above, else it comes first, whatever pragmas follow |
| `PragmaRuns.SeveralAreSpaced` | scripts/cpp/harmonize_linebreaks_pragmaonce.py:49-107 | when every pragma has one blank line below and at most one above, or only blank ones above, each one ends up with exactly one on both sides or as the first line |
| `PragmaRuns.SecondIsMissed` | scripts/cpp/harmonize_linebreaks_pragmaonce.py:88-101 | a text with two pragmas without room below where the second is left unspaced |
| `PragmaSpacing.UntouchedExactly` | scripts/cpp/harmonize_linebreaks_pragmaonce.py:62-74 | with one pragma, everything else is left untouched if and only if the recorded index is not stale (fewer than three blank lines above, or nothing above them, or the new text too short), or the line that has this index afterwards has one blank line above and one below, or is one of exactly three empty lines |
| `PragmaSpacing.SpacedTouchesOnlyGaps` | scripts/cpp/harmonize_linebreaks_pragmaonce.py:49-107 | spacing one line replaces only the blank lines next to it, and says by which |
| `PragmaSpacing.ThreeBlanksPullApart` | scripts/cpp/harmonize_linebreaks_pragmaonce.py:62-66 | a text with three blank lines above its pragma where other lines are pulled apart |
| `Ampersands.FixSingleAmpersands` | Core/Tools/Autorun/Utils.cpp:100-132 | doubles every ampersand in place |
| `Ampersands.FixDoubleAmpersands` | Core/Tools/Autorun/Utils.cpp:203-234 | halves every pair in place |
| `Ampersands.DoublesEach` | Core/Tools/Autorun/Utils.cpp:100-132 | character by character an ampersand comes out twice and any other once |
| `Ampersands.CaseExactly` | Core/Tools/Autorun/Utils.cpp:117-126 | upper-casing leaves no small letter and changes nothing but small letters |
| `Ampersands.HalvingUndoesDoubling` | Core/Tools/Autorun/Utils.cpp:100-132 | halving after doubling restores every string; upper-casing on the way stays |
| `Ampersands.DoublingUndoesHalving` | Core/Tools/Autorun/Utils.cpp:203-234 | doubling after halving restores a string if and only if its ampersands come in pairs |
| `PerfSummary.PercentileInRange` | scripts/perf-summary.py:36-48 | the percentile is the minimum at 0, the maximum at 1, and between them otherwise |
| `PerfSummary.PercentileInterpolates` | scripts/perf-summary.py:36-48 | between two neighbours of the sorted samples the percentile is the straight line from one to the other |
| `PerfSummary.PercentileGrows` | scripts/perf-summary.py:36-48 | it is monotone in its fraction |
| `PerfSummary.PercentileIgnoresOrder` | scripts/perf-summary.py:39 | it does not depend on the order of the samples |
| `PerfSummary.SummaryIsOrdered` | scripts/perf-summary.py:51-61 | min <= p50 <= p95 <= p99 <= max, and the mean lies between min and max |
| `PerfSummary.SummaryIsExact` | scripts/perf-summary.py:51-61 | mean times count is the sum of the samples, the maximum is theirs, the percentiles are at 0.5, 0.95 and 0.99, and a summary of none is zeros |

## Left out

- Progress bars, logs, message boxes, change and display marks, string ids, wave validity, line numbers and the
  code of the dialogs beyond their answers: user interface and bookkeeping that no modelled result depends on.
- The maintenance of `TransDB` outside these operations (`Warnings`, loading and saving): the bin is taken to hold
  exactly the texts of the labels, which the operations then keep.
- BabylonLabelLaws.UpdateConverges: with one string per label a destination label is taken to hold at most one text, as that mode assumes.
- CsfParser.GameTextManager.ParseCsf: says nothing about files whose lengths point outside the file, the buffers or the table, which the code does not check.
- StringFileParser.ReadToEndOfQuote: takes a quote that fits the buffers and is closed, with the end of its line to come, or cut short; otherwise the source reads on without end.
- StringFileParser.TextFileReader.ParseStringFile: takes lines and quotes shorter than the buffers and every quote it reads closed with a newline to follow; the source reads on without end where a quote or its line is never ended, and goes on with stale buffers after a quote cut short by a 0xFF byte.
- BabylonConservation.UpdateDbConserves: asks for distinct source keys before it says that moved texts are old ones, where `KeepsOldTextsExactly` has the exact condition.
- BabylonChains.KeepsOldTextsExactly: with one string per label all labels are taken to hold at most one text, as that mode assumes.
- StringFileParser.TextFileReader.Load: where quoted labels make the parser need more entries than the counted and the spare ones, the source writes behind its table; such files are outside.
- StringFileParser.TranslateCopy: the two joke modes, a debugging aid that replaces the text, are not modelled.
- LookupTable.GameTextStore.Fetch: the source returns a pointer to a local string when the missing text is already known; the model returns its value.
- LookupTable.QSort: only the contract of the library function is used, so it is the insertion sort of `Sorting`.
- Locale.LocaleApi.Galloc: a request for a size that is not negative is granted.
- LocaleBanks.LoadTable: 16 + 4 * id and the chunk positions are unbounded integers, where the source could overflow on ids beyond 2^28.
- RAM files: seeking and sizes, and opening through the file system; the parsers only read on.
- The choice between the compiled and the text form in `GameTextManager::init`, maximum label length, `deinit` and `reset`: simple.
- DbgHelpLoader: forwarding of the other library functions, and memory failure followed by unpaired unloads.
- The Bink, Miles and Usp10 loaders: a simpler copy of the same life cycle.
- The regular expressions, encodings, line ends and file walking of the scripts: a line comes classified.
- PragmaSpacing.UntouchedExactly: for texts with one pragma.
- PragmaRuns.SeveralAreSpaced: one direction; without that room it depends on how all recorded line numbers have shifted by then, which only a run of the script tells.
- GuardLaws.RewritersKeepMeaning: takes a guard without an `#else` or `#elif` of its own, and compares with the old lines without the guard's `#define`, so a later test of the guard's macro comes out as if it were not defined.
- PerfSummary.PercentileInRange: exact reals, where the script rounds; fractions lie between 0 and 1, as in every call of the script.
- Reading captures and the dictionaries of `build_summary`: field by field the same `summarize`.
- Ampersands: the wide-character version of doubling clears only half of its buffer and upper-cases through `char`, so long results are not terminated and other letters are cut; it is not modelled.
- Nothing was executed; all claims are those of the verifier.
