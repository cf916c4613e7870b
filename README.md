# dm_heart core, modelled in Dafny

dm_heart sends thank-you direct messages to donors ("hearts") on a streaming platform.
It has two halves.

- **Recipient preparation.** The Streamlit page (`dm_ui.py`) guesses which columns of an
  uploaded donation table hold the donor ID, the nickname and the hearts. It splits IDs
  written as `ID(nickname)` when the ID column looks mixed. It sums the hearts per ID and
  keeps two lists, both ordered by hearts (most first) and then by ID:
  - the donors with 1000 to 9999 hearts, for automatic sending;
  - the VIP donors, with 10000 or more.
  Recipients can also be typed in by hand, as IDs separated by commas or whitespace. The page
  also previews the messages each recipient would get.
- **Sending.** The sender (`panda_dm_sender.py`) keeps a status file with one item per
  recipient row. It walks the rows from `--start` on, at most `--limit` messages. For each
  recipient it sends the base message with U+3000 (full-width space) markers at a line end.
  The marking changes with each group of five messages, so messages of different groups
  differ while the five messages of one group are identical. It judges
  success from the texts of the dialogs the site shows, and records and saves each row's
  status as soon as it is known.

The model follows the program's structure, one module per concern:

| file | module | what it holds |
|---|---|---|
| `option.dfy` | `Optional` | `Option` |
| `py_text.dfy` | `PyText` | the Python string and list behaviour the core relies on: `str.isspace`, `strip`, `split()`, `split(sep)`, `splitlines`, `join`, slicing, substring search, `str` ordering, `dict.fromkeys` de-duplication |
| `message_mutator.dfy` | `MessageMutator` | `msg_with_line_end_spaces` |
| `message_preview.dfy` | `MessagePreview` | `build_messages_with_endspaces` (an imperative method with loops, proved against a function) |
| `outcome_classifier.dfy` | `OutcomeClassifier` | `contains_any` and the verdict of `send_one` (two scanning loops) |
| `dispatch.dfy` | `Dispatch` | `main`: the status document as a class `StatusStore` whose methods update it in place, its initialisation and the send loop |
| `run_properties.dfy` | `RunProperties` | what a run does, as lemmas over the closed-form description of the loop |
| `column_guess.dfy` | `ColumnGuess` | `guess_columns` |
| `mixed_ids.dfy` | `MixedIds` | `normalize_id_from_mix`, `normalize_nick_from_mix`, `detect_mixed_id` |
| `recipient_prep.dfy` | `RecipientPrep` | `prepare_from_csv` and the hand-typed ID list |

Choices that shape the model:

- **Regular expressions** are replaced by functions that define the same match.
  - `^\s*([^()]+)` on a stripped string is the longest prefix without parentheses, and there is
    no match when that prefix is empty (`MixedIds.BeforeParen`).
  - `\((.*?)\)` is the leftmost `(` that has a `)` after it with no line break in between
    (regex `.` does not match `\n`), closed at the first such `)` (`MixedIds.GroupFrom`).
  - `[,\s]+` splits on runs of commas and whitespace (`PyText.SplitRuns`).
- **Whitespace.** `\s` and `str.isspace` are the same set of characters (`PyText.IsSpace`).
- **The 30% threshold** `hit / len >= 0.3` becomes the integer test `hit * 10 >= 3 * len`. The
  sample has at most 200 values, and for every length up to 200 the two tests agree.
- **Missing cells.** A missing (NaN) cell is the constructor `Cell.Missing`. `astype(str)` turns
  it into the text `"nan"`, which the model keeps.
- **Clock.** `now_ts()` is a logical clock in `StatusStore`. Each call advances the clock and
  returns its new value, so stamps are strictly increasing numbers. The program's own stamps
  have one-second resolution and can repeat; see "Left out".
- **The browser** is a parameter of the run: a function from (messages sent so far, recipient,
  message) to the reply the compose form gave. The reply is either nothing usable or the list of
  visible dialog texts.
- **ID cells in the sender.** The sender reads the recipients file with `pd.read_csv`, which
  turns an empty ID field into a missing value, and `str()` renders that as `"nan"`. So an
  empty ID field is not a blank ID: the row is messaged to the recipient `"nan"`
  (`RunProperties.MissingIdIsMessaged`). Only whitespace-only ID fields take the blank branch.
  Such empty fields can come from the page itself: in a mixed column, a missing cell gets the
  ID `""` (`MixedIds.NormalizeIdMeaning`).
- **Grouping and sorting.** The model uses an insertion sort on (hearts descending, ID
  ascending). Python orders strings by code point, and that is the order `PyText.LexLe` uses.
  After grouping, IDs are unique, so the sorted list is fully determined
  (`RecipientPrep.SortedIsUnique`). Any correct sort therefore gives the same list as pandas'.

The preview and the sender do not produce the same message. The preview splits with
`splitlines()` and the sender with `split("\n")`.
- For text made only of `\n`-separated lines that does not end in a line break, they agree
  (`MessagePreview.PreviewAgreesWithSender`).
- A trailing line break is dropped by the preview and kept by the sender
  (`MessagePreview.PreviewDropsTrailingNewline`).
- For `\r\n` line ends, the preview puts the marker where the `\r` was, while the sender puts it
  after the `\r` (`MessagePreview.PreviewDropsCarriageReturn`).

## Model

| member | source | states |
|---|---|---|
| PyText.Strip | dm_ui.py:77 | the result has no leading or trailing whitespace, and it is empty exactly when the input is all whitespace |
| PyText.StripMeaning | dm_ui.py:77 | `strip()` keeps one stretch of the input with only whitespace before and after it; with `Strip`'s contract, that stretch runs from the first to the last non-whitespace character |
| PyText.StripIdempotent | dm_ui.py:79 | stripping twice is stripping once |
| PyText.SplitRuns | dm_ui.py:425 | splitting on separator runs and dropping empty pieces gives non-empty pieces without separators whose concatenation is the input with its separators removed |
| PyText.SplitRunsSkip | dm_ui.py:425 | separators in front of a text add no piece |
| PyText.SplitRunsBreak | dm_ui.py:425 | a non-empty separator-free piece followed by a run of separators is the first piece, whatever follows the run: the pieces break at every separator run |
| PyText.SplitRunsWhole | dm_ui.py:425 | a non-empty separator-free text is exactly one piece: the pieces never break between two non-separators |
| PyText.SplitOn | panda_dm_sender.py:97 | `split("\n")` gives at least one piece, none holds the separator, and joining them back gives the input |
| PyText.SplitOnJoin | panda_dm_sender.py:97-106 | splitting a join of separator-free pieces gives the pieces back (the other half of the round trip) |
| PyText.SplitLines | dm_ui.py:165 | `splitlines()` is empty exactly for the empty string, and no line holds a line boundary |
| PyText.SplitLinesGlue | dm_ui.py:165 | text written as lines without boundaries, each ended by one boundary character or by "\r\n" (the last may be unended if non-empty, and a lone "\r" is never followed by an empty line ended by "\n"), is split back into exactly those lines |
| PyText.SplitLinesCover | dm_ui.py:165 | every text is its `splitlines()` lines written that way, so with `SplitLinesGlue` each line is the text up to its next boundary, "\r\n" counting as one |
| PyText.SplitLinesAgree | dm_ui.py:165 | for non-empty text whose only line boundaries are `\n` and that does not end in one, `splitlines()` equals `split("\n")` |
| PyText.OccursMeaning | panda_dm_sender.py:70 | the `in` test on strings holds exactly when the needle occurs at some position of the haystack |
| PyText.LexLeTotal | dm_ui.py:150 | string order is total |
| PyText.LexLeTrans | dm_ui.py:150 | string order is transitive |
| PyText.LexLeAntisym | dm_ui.py:150 | string order is antisymmetric |
| PyText.Dedup | dm_ui.py:426 | `dict.fromkeys` de-duplication yields distinct elements, loses none, adds none, and keeps first-occurrence order |
| PyText.DedupSnoc | dm_ui.py:426 | appending a seen element changes nothing; appending a new one puts it last |
| MessageMutator.MessageIsCutVariant | panda_dm_sender.py:106-108 | the message is a prefix of the marked and rejoined text, at most 500 characters long, and the whole text whenever that fits |
| MessageMutator.MessageShape | panda_dm_sender.py:97-106 | before the cut, the message splits into exactly as many lines as the base; only the target line differs, and it gains the markers |
| MessageMutator.SameBlockSameMessage | panda_dm_sender.py:101-104 | send indices in the same block of five get the same message |
| MessageMutator.BlockPlacementInjective | panda_dm_sender.py:102-104 | two different blocks mark a different line or a different number of markers |
| MessageMutator.DistinctBlocksDistinctLines | panda_dm_sender.py:102-106 | different blocks give different joined texts |
| MessageMutator.DistinctBlocksDistinctMessages | panda_dm_sender.py:90-106 | messages of different blocks differ before the 500-character cut |
| MessageMutator.FirstGroupMarksFirstLine | panda_dm_sender.py:97-106 | for a base of two lines without `\n`, send indices 0 to 4 get one marker at the end of the first line in the marked text before the 500-character cut |
| MessageMutator.HelloWorldFirstGroup | panda_dm_sender.py:90-108 | the first five messages of "hello\nworld" are "hello　\nworld" |
| MessageMutator.FullLengthLosesMarker | panda_dm_sender.py:108 | a single-line base of exactly 500 characters is sent unchanged: the cut removes the marker |
| MessagePreview.PreviewLines | dm_ui.py:165-166 | the preview's lines are never empty as a list, hold no `\n`, and are `[""]` for the empty message |
| MessagePreview.BuildMessagesWithEndspaces | dm_ui.py:158-182 | returns `n` messages (none for `n <= 0`); message `i` is the preview message for index `i`, at most 500 characters |
| MessagePreview.MarkEachLine | dm_ui.py:174-179 | the inner loop marks exactly the target line |
| MessagePreview.PreviewShape | dm_ui.py:165-181 | a preview message is the marked lines cut to 500; the marked text splits into as many lines as the preview has; other lines are unchanged; the target line gains at least one marker |
| MessagePreview.PreviewSameBlock | dm_ui.py:170-172 | indices in the same block of five get the same preview |
| MessagePreview.PreviewOfEmpty | dm_ui.py:165 | an empty base gives only markers, `1 + i / 5` of them |
| MessagePreview.PreviewAgreesWithSender | dm_ui.py:165 | for `\n`-only text without a trailing line break, preview and sender agree |
| MessagePreview.PreviewDropsTrailingNewline | dm_ui.py:165 | for "a\n", the preview gives "a　" but the sender gives "a　\n" |
| MessagePreview.PreviewDropsCarriageReturn | dm_ui.py:165 | for "a\r\nb", the preview gives "a　\nb" but the sender gives "a\r　\nb" |
| MessagePreview.PreviewFirstGroupTwoLines | dm_ui.py:169-181 | for a base whose preview lines are `a` and `b`, with `|a| + |b| + 2` at most 500 so that nothing is cut, the first five previews are `a`, one marker, a line break and `b` |
| OutcomeClassifier.NormalizeShape | panda_dm_sender.py:69 | `" ".join(s.split())` leaves no leading, trailing or doubled whitespace, and keeps the non-space characters |
| OutcomeClassifier.NormalizeKeepsWords | panda_dm_sender.py:69 | normalising keeps the words and is idempotent |
| OutcomeClassifier.WordsJoin | panda_dm_sender.py:69 | splitting a single-space join of words gives the words back |
| OutcomeClassifier.ContainsAnyMeaning | panda_dm_sender.py:68-70 | `contains_any` holds exactly when some needle occurs in the normalised text |
| OutcomeClassifier.ContainsAnyIgnoresSpacing | panda_dm_sender.py:68-70 | texts with the same words get the same answer, however they are spaced |
| OutcomeClassifier.MentionsMeaning | panda_dm_sender.py:246-256 | a key list is mentioned exactly when some dialog text contains one of its keys |
| OutcomeClassifier.FirstHit | panda_dm_sender.py:246-249 | the scan stops at the first text containing a key, and it stops before the end exactly when some text does |
| OutcomeClassifier.ScanFeedback | panda_dm_sender.py:246-256 | the scanning loop finds a key exactly when a text mentions one |
| OutcomeClassifier.JudgeFeedback | panda_dm_sender.py:242-256 | the two loops reach the verdict `Judge` defines |
| OutcomeClassifier.JudgeMeaning | panda_dm_sender.py:242-263 | success exactly when a success key is mentioned; failure exactly when none is and a failure key is |
| OutcomeClassifier.DeliveredMeaning | panda_dm_sender.py:242-263 | a send counts as delivered exactly when dialog texts were read and some mentions a success key |
| OutcomeClassifier.SendOne | panda_dm_sender.py:238-263 | the returned flag is the delivery verdict |
| OutcomeClassifier.SilenceIsFailure | panda_dm_sender.py:262-263 | no dialog text means no verdict, so the send counts as failed |
| OutcomeClassifier.SuccessWins | panda_dm_sender.py:245-249 | one text with a success key makes the send a success, whatever else was shown |
| OutcomeClassifier.FailureWithoutSuccess | panda_dm_sender.py:251-256 | a failure key without any success key makes it a failure |
| OutcomeClassifier.NoMatchIsFailure | panda_dm_sender.py:261-263 | texts without any key are judged failed |
| OutcomeClassifier.SplitPhraseIsFound | panda_dm_sender.py:68-70 | "수신" and "거부" separated by any whitespace run still match the failure key "수신 거부" |
| OutcomeClassifier.CompletionBeatsBlock | panda_dm_sender.py:238-249 | "차단 해제 완료" contains the failure key "차단", yet it is a success because success is checked first |
| Dispatch.SendsBefore | panda_dm_sender.py:352-372 | no messages go out before the first row looked at, and at most one per row after it |
| Dispatch.StopFrom | panda_dm_sender.py:349-350 | the loop stops within the rows |
| Dispatch.SuccessesBefore | panda_dm_sender.py:368-369 | successes never exceed sends |
| Dispatch.StatusStore.Load | panda_dm_sender.py:76-82 | the store starts with the file's items and creation stamp, or empty without a file |
| Dispatch.StatusStore.Now | panda_dm_sender.py:72-73 | a stamp is the clock's next value, and nothing else changes |
| Dispatch.StatusStore.Save | panda_dm_sender.py:85-86 | the file now holds the items and creation stamp |
| Dispatch.StatusStore.InitStatus | panda_dm_sender.py:297-310 | rebuilds exactly on reset, no items, or a wrong item count, with one pending item per row stamped in order, then saves; otherwise nothing changes; either way there is one item per row |
| Dispatch.StatusStore.Record | panda_dm_sender.py:354-356 | sets and stamps one row's status and saves |
| Dispatch.StatusStore.Dispatch | panda_dm_sender.py:344-372 | every row's item becomes its recorded state; the counters and send log match the run's closed form, with failures counted independently of successes (`FailuresBefore`), and successes plus failures equal the messages sent; one stamp and one save per row looked at |
| Dispatch.VisitRow | panda_dm_sender.py:352-372 | a blank ID fails without a message; otherwise the verdict on the reply becomes the status and is counted as one success or one failure and one message sent |
| Dispatch.RunSender | panda_dm_sender.py:297-372 | after initialisation and the loop: one item per row; every row's whole item is its recorded state starting from the rebuilt pending item or from its old item; the counters match the closed form and add up; the creation stamp, clock, save count and saved file are stated for both the rebuilding and the keeping case |
| Dispatch.StampedChangesOneRow | panda_dm_sender.py:354-356 | recording a status changes that row only, advances the clock once and saves once |
| RunProperties.SendsBeforeMonotone | panda_dm_sender.py:372 | the sent count never decreases along the rows |
| RunProperties.StopFromReason | panda_dm_sender.py:345-350 | the loop stops only at the end of the rows or when the limit is reached |
| RunProperties.LimitBoundsRun | panda_dm_sender.py:349-350 | with a positive limit, at most `limit` messages are sent, exactly `limit` when rows remain, and every row looked at was below the limit |
| RunProperties.NegativeLimitSendsNothing | panda_dm_sender.py:349-350 | a negative limit stops before the first row: nothing is sent |
| RunProperties.NoLimitVisitsAll | panda_dm_sender.py:349 | a limit of zero means no limit: every row from the start on is looked at |
| RunProperties.SendNumbersIncrease | panda_dm_sender.py:360-372 | each non-blank row's send number is larger than that of every earlier non-blank row |
| RunProperties.StartSkips | panda_dm_sender.py:347-348 | a row is skipped exactly when `args.start and i < args.start` holds for it |
| RunProperties.SendLogNumbers | panda_dm_sender.py:352-372 | the messages handed to the browser are one per non-blank row looked at, in row order; the `q`-th goes to the stripped ID of its row with message number `q`, and carries the verdict that row is recorded with; every non-blank row looked at has its message at its send number |
| RunProperties.FirstSendNumberZero | panda_dm_sender.py:344 | the first message is message number 0 |
| RunProperties.NoBlankRun | panda_dm_sender.py:344-372 | without blank IDs, the run stops at `start + limit` or the end, and row `k` gets message number `k - start` |
| RunProperties.StartTwoLimitThree | panda_dm_sender.py:344-372 | with ten rows, start 2 and limit 3, rows 2 to 4 are sent, all with the first block's message |
| RunProperties.InitialItemsShape | panda_dm_sender.py:301-308 | one rebuilt item per row, with its row index and ID, "pending", its hearts (0 without a hearts column) and consecutive stamps of the logical clock in row order |
| RunProperties.RecordedRows | panda_dm_sender.py:352-366 | rows outside the run keep their item; blank rows become "fail"; sent rows are "success" exactly when delivered; a row looked at keeps its index, ID and hearts and is stamped with the tick of its turn |
| RunProperties.MissingIdIsMessaged | panda_dm_sender.py:352-362 | a row whose ID field was empty in the file (read as a missing value, rendered "nan") is not blank: it is sent to "nan" and counted as a sent message |
| ColumnGuess.NoSpaces | dm_ui.py:64 | `replace(" ", "")` is the filter that drops U+0020: the result holds no U+0020 and is never longer than the name |
| ColumnGuess.NoSpacesMeaning | dm_ui.py:64 | removing spaces works character by character and keeps order: it distributes over concatenation, drops a U+0020, keeps any other character, and leaves a name without U+0020 unchanged |
| ColumnGuess.PickFirstMatch | dm_ui.py:62-66 | `pick` returns the first column whose space-free name is a candidate, "" when none is, and otherwise always a column of the frame |
| ColumnGuess.GuessColumnsMeaning | dm_ui.py:56-72 | the guess fails only without columns; the ID and hearts columns are columns of the frame and default to the first and last column; the nickname column is a column or ""; each is the first match |
| MixedIds.BeforeParen | dm_ui.py:78 | the part before the first parenthesis is a prefix without parentheses, ended by a parenthesis or the end |
| MixedIds.NormalizeIdMeaning | dm_ui.py:74-79 | missing cells give ""; the result is stripped; text starting with a parenthesis comes back whole (stripped); otherwise the result is the stripped text before the first parenthesis |
| MixedIds.CloseFrom | dm_ui.py:85 | the closing parenthesis found is the first one, with no line break before it |
| MixedIds.GroupFrom | dm_ui.py:85 | a group found is a real `(…)` group |
| MixedIds.GroupFromLeftmost | dm_ui.py:85 | no group starts left of the one found |
| MixedIds.NormalizeNickMeaning | dm_ui.py:81-86 | missing cells and text without a group give ""; otherwise the stripped inside of the leftmost group; the result is always stripped |
| MixedIds.Hits | dm_ui.py:92 | hits never exceed the values sampled |
| MixedIds.Sample | dm_ui.py:91 | the sample holds at most 200 values |
| MixedIds.DetectExtremes | dm_ui.py:88-95 | no present values means not mixed; all values with `(` before `)` means mixed; none means not mixed |
| MixedIds.MissingIgnored | dm_ui.py:91 | a missing cell does not change the detection |
| MixedIds.SampleIgnoresTail | dm_ui.py:91 | values after the first 200 present ones do not change the detection |
| MixedIds.MixedCellHasPair | dm_ui.py:92 | an "ID(nick)" cell counts as a hit |
| MixedIds.SplitMixedCell | dm_ui.py:74-86 | a cell "ID(nick)" gives the stripped ID and the stripped nickname back |
| MixedIds.SplitExample | dm_ui.py:74-86 | "aa123(닉네임)" gives "aa123" and "닉네임" |
| RecipientPrep.NormalizeRowMeaning | dm_ui.py:120-137 | IDs and nicknames come out stripped; the nickname from the ID cell wins when non-empty, else the nickname column's; a non-mixed ID is the stripped cell text |
| RecipientPrep.MixedRowSplit | dm_ui.py:123-137 | in a mixed column, "ID(nick)" gives the ID and, when non-empty, that nickname |
| RecipientPrep.TotalHeartsAppend | dm_ui.py:144 | the heart total over two parts is the sum of their totals |
| RecipientPrep.FirstNickIsFirstRow | dm_ui.py:144 | an ID's nickname is the one of its first row |
| RecipientPrep.AggregateMeaning | dm_ui.py:142-145 | one entry per ID, every ID of the rows present, each with its first nickname and its summed hearts |
| RecipientPrep.BandMeaning | dm_ui.py:147-148 | a band holds exactly the entries with hearts in its range, each no more often than before |
| RecipientPrep.BandUnique | dm_ui.py:147-148 | filtering keeps IDs unique |
| RecipientPrep.BeforeTotal | dm_ui.py:150 | the sort key order is total |
| RecipientPrep.BeforeTrans | dm_ui.py:150 | the sort key order is transitive |
| RecipientPrep.SortByKeyMeaning | dm_ui.py:150-151 | sorting gives a list ordered by hearts descending then ID ascending, and a permutation of its input |
| RecipientPrep.SortByKeyUnique | dm_ui.py:150-151 | sorting keeps IDs unique |
| RecipientPrep.SortedIsUnique | dm_ui.py:150-151 | two sorted lists with unique IDs that are permutations of each other are equal, so the order is fully determined |
| RecipientPrep.BandListMeaning | dm_ui.py:147-151 | each list is sorted, has unique IDs, and holds exactly the band's entries |
| RecipientPrep.PrepareMeaning | dm_ui.py:98-152 | both lists are sorted with unique IDs and share no ID; every entry carries its ID's first nickname and summed hearts; an ID is in the automatic list exactly when its total is 1000 to 9999, and in the VIP list exactly when it is 10000 or more |
| RecipientPrep.ManualTokensMeaning | dm_ui.py:425 | tokens are non-empty and already stripped; together they are the text without commas and whitespace (where they break is fixed by the three rows below) |
| RecipientPrep.SeparatorsSplitNothing | dm_ui.py:425 | commas and whitespace in front of the typed text add no token |
| RecipientPrep.TokenThenSeparators | dm_ui.py:425 | a typed ID followed by any run of commas and whitespace is the first token, so two IDs with a separator between them stay two tokens |
| RecipientPrep.LastToken | dm_ui.py:425 | a typed ID without commas or whitespace is one token, never split |
| RecipientPrep.ManualIdsMeaning | dm_ui.py:424-427 | the typed IDs are distinct, non-empty and separator-free; together they are exactly the tokens, in first-occurrence order; each becomes a recipient with no nickname and 1000 hearts, with unique IDs |
| RecipientPrep.RepeatedIdKeptOnce | dm_ui.py:425-426 | "a, b a" gives the IDs a and b |
| RecipientPrep.ManualExample | dm_ui.py:425-426 | "a1, b2 a1" gives ["a1", "b2"] |

## Left out

- Dispatch.StatusStore.Dispatch, Dispatch.VisitRow, OutcomeClassifier.SendOne: a browser exception is not modelled. In the program, `ensure_compose_open` (panda_dm_sender.py:197-202, called at 211, 227 and 266) can raise a timeout, and the send loop has no `except` (lines 340-385), so the exception ends the run: the current row keeps its earlier status although its message may already have gone out, and no later row is looked at. In the model the browser always answers, an unusable reply counts as a failure, and the loop goes on; the model's statements about rows up to the stop row describe only runs without such an exception.
- The browser automation (Selenium, page waiting, clicking, dialog collection in `get_visible_dialog_texts`, `ensure_compose_open`, `click_any_ok`, log-in) is not modelled. The browser is a function parameter that returns the dialog texts or an unusable reply.
- Reading and writing files (`message.txt`, the recipients CSV, the status JSON, the `.env` credentials) and the command-line parser are not modelled. The loaded status file is an `Option<Snapshot>`, and saving assigns the `persisted` field. A status file that fails to parse behaves like a missing one, and that case is not modelled separately.
- The early exits of `main` are not modelled. Missing files and a missing ID column end the program before the status file is touched. Missing credentials (panda_dm_sender.py:316-317) and a failure to start the browser or log in (lines 337-342) end it after the initialisation: a run that rebuilds the status file saves it with every item pending and then exits, without the send loop. `Dispatch.StatusStore.InitStatus` covers that first step alone.
- The random 0.2–2 second pause between messages, and the other sleeps and timeouts, are not modelled.
- Wall-clock timestamps are not modelled. `now_ts()` is a logical clock, so stamps are numbers, not formatted date strings. The program's stamps have one-second resolution, so items rebuilt or recorded within the same second share a stamp; the strictly increasing stamps stated by `RunProperties.InitialItemsShape`, `RunProperties.RecordedRows` and `Dispatch.StatusStore.Now` come from the logical clock, not from the program.
- Dispatch.StatusStore.Dispatch: assumes the status document already has one item per row, which `main`'s initialisation guarantees (`Dispatch.RunSender` proves the two together). The index error Python would raise on a shorter item list is not modelled.
- `_to_int` (parsing hearts with commas and floats) is not modelled. Hearts enter the model as integers that have already been parsed.
- Column selection by name is not modelled. Each upload row is given as its ID cell, nickname cell and hearts. Duplicate column names after stripping are not modelled.
- MixedIds.DetectMixedId: the `except` branch is not modelled. Over a list of cells nothing can raise, and the `sample` and `threshold` parameters are fixed to their defaults of 200 and 0.3, the only values the core uses.
- The key order of pandas `groupby` before sorting is not modelled. `RecipientPrep.SortedIsUnique` shows that the sorted result does not depend on it.
- The Streamlit page itself is not modelled: widgets, tables, CSV downloads, session state, and starting the sender as a subprocess. `main_app.py` is not part of this model.
- ColumnGuess.GuessColumnsMeaning: states the guess in terms of the first matching column. No lemma computes the guess for a concrete header with the full Korean candidate lists.
- The send log is stated as a whole by `RunProperties.SendLogNumbers`. That its delivered entries number exactly the success count is not stated as a lemma; `StatusStore.Dispatch` states the success count itself.
