# EchoQuill core, modelled in Dafny

EchoQuill is a journaling application with three parts:

- a React front end: chat window, daily goals, calendar, mood-trend and emotion-pie charts, and a journal service with retries;
- an Express back end: authentication, journal controller, and a stand-alone script that turns yesterday's chat messages into journal entries (nothing schedules it, and its own call at the end of the file is commented out);
- two Flask services that label a text with emotions, plus the analysis helpers they are built from.

This project models that core as pure Dafny functions over immutable datatypes and proves properties of the model. Everything outside the core is either a parameter of the functions that use it (the language model, the emotion classifiers, the database's write failures, the clock, the HTTP transport, bcrypt/JWT) or left out (see below).

One module per component, one file per module:

| file | module | component |
|---|---|---|
| common.dfy | Common | `Option` |
| text.dfy | Text | JavaScript and Python string helpers: trim, strip, lower-casing, split and join, decimal conversion |
| sequences.dfy | Sequences | filtering, stable sorting by a real key, de-duplication in first-appearance order |
| goals.dfy | DailyGoals | the daily-goals list and its edit form |
| chat.dfy | ChatWindow | sending a message, loading today's history, "generate journal" |
| calendar.dfy | Calendar | month navigation, Gregorian date arithmetic, date keys, the month grid |
| colors.dfy | Colors | label-to-colour lookup, the string-hash fallback, hex/rgb/rgba conversion |
| mood_trends.dfy | MoodTrends | the mood-trends chart's data transformation |
| emotion_pie.dfy | EmotionPie | the emotion-pie chart's slices, labels and percentages |
| journal_service.dfy | JournalService | the front end's API calls with timeout retries |
| conversation.dfy | Conversation | stored chat messages, the day windows, the transcript |
| journal_controller.dfy | JournalController | listing, generating and deleting journals |
| generate_journals.dfy | GenerateJournals | the journal-generation script |
| auth.dfy | Auth | registration and login |
| text_cleaning.dfy | TextCleaning | `preprocess_text` |
| predict.dfy | Predict | the two `/api/predict` services |
| analyze.dfy | Analyze | `analyze_emotion` and `analyze_journal_entries` |

Two behaviours of the code are worth stating up front:

- Journal generation makes a single language-model call per day of messages. Both the script (`backend/scripts/generateJournals.js`) and the route handler (`backend/controllers/journalController.js`) build a document that puts the reply's `response` in `content`, with mood `"neutral"`; no separate summarising or mood-tagging step exists. Neither path keeps that text as written: the script's save is always rejected, because the `Journal` schema requires a `title` (see Findings), and the `JournalEntry` schema the route handler saves through has no `content` field, so mongoose drops it (see Left out).
- Both charts look label colours up in a plain object literal, so names inherited from `Object.prototype` are found too (see Findings).

## Model

| member | source | states |
|---|---|---|
| Text.Strip | frontend/src/components/DailyGoals.js:38-40 | the result is the input minus its longest leading and trailing whitespace runs; it is empty exactly when the input is all whitespace, and otherwise starts and ends with a non-space |
| Text.TrimIdempotent | frontend/src/components/DailyGoals.js:38-40 | trimming a trimmed text changes nothing |
| Text.TrimUnpadded | frontend/src/components/DailyGoals.js:56-59 | a text without surrounding whitespace trims to itself |
| Text.Split | backend/scripts/generateJournals.js:45 | `split` on a one-character separator: at least one piece, and no piece contains the separator |
| Text.SplitJoin | backend/controllers/journalController.js:34 | lines without the separator, joined with it, split back into the same lines |
| Text.JoinSplit | backend/controllers/journalController.js:34 | splitting at a character and joining with it gives the text back |
| Text.Decimal | frontend/src/components/MoodTrendsChart.js:227 | a number's decimal rendering is a non-empty string of digits, one digit long exactly below 10 |
| Text.DecimalRoundTrip | frontend/src/components/MoodTrendsChart.js:227 | reading a rendered number back gives the number |
| Text.DecimalInjective | frontend/src/components/MoodTrendsChart.js:227 | different numbers render differently |
| Text.CodePointKey | backend/controllers/journalController.js:6 | a text's key lies in [0, 1) and grows with its first character |
| Text.LexLessKey | backend/controllers/journalController.js:6 | a text that sorts before another by code points has the smaller key |
| Text.KeyOrder | backend/controllers/journalController.js:6 | a text whose key is at least another's does not sort before it |
| Sequences.Filter | backend/controllers/journalController.js:6 | a filter keeps exactly the elements that pass, and no more elements than it received |
| Sequences.FilterIsSubsequence | backend/controllers/journalController.js:6 | a filter keeps the relative order of what it keeps |
| Sequences.SortBy | frontend/src/components/MoodTrendsChart.js:48 | sorting yields a permutation of the input in ascending key order |
| Sequences.SortByStable | frontend/src/components/MoodTrendsChart.js:48 | the sort is stable: elements with equal keys keep their input order |
| Sequences.Dedup | frontend/src/components/MoodTrendsChart.js:64-68 | `Array.from(new Set(...))`: each element once, nothing new, nothing lost, in order of first appearance |
| DailyGoals.ToggleGoal | frontend/src/components/DailyGoals.js:16-23 | only the goal with the given id flips `completed`; every goal keeps its id, text and position; nothing else in the component state changes |
| DailyGoals.ToggleTwice | frontend/src/components/DailyGoals.js:16-23 | toggling the same id twice restores the state |
| DailyGoals.DeleteGoal | frontend/src/components/DailyGoals.js:26-28 | the goals left are exactly those whose id differs, kept in their original order; the rest of the state is unchanged |
| DailyGoals.DeleteCount | frontend/src/components/DailyGoals.js:27 | deleting drops exactly as many goals as carry the id |
| DailyGoals.CountDistinct | frontend/src/components/DailyGoals.js:27 | with distinct ids, an id occurs at most once, and once exactly when some goal has it |
| DailyGoals.DeleteRemovesOne | frontend/src/components/DailyGoals.js:26-28 | with distinct ids, deleting a present id shortens the list by one, and deleting an absent id changes nothing |
| DailyGoals.StartEdit | frontend/src/components/DailyGoals.js:31-34 | the goal's id and text go into the edit form; the goals and the add form are untouched |
| DailyGoals.SaveEdit | frontend/src/components/DailyGoals.js:37-45 | a blank edit text changes nothing; otherwise the goal being edited gets the trimmed text, all others keep theirs, ids, order and completion stay, and the form is cleared |
| DailyGoals.CancelEdit | frontend/src/components/DailyGoals.js:48-51 | the edit form is cleared and nothing else changes |
| DailyGoals.NextId | frontend/src/components/DailyGoals.js:58 | `Math.max(0, ...ids) + 1`: at least 1, above every id, and one more than an existing id unless it is 1 |
| DailyGoals.AddGoal | frontend/src/components/DailyGoals.js:54-66 | a blank text changes nothing; otherwise one uncompleted goal with the trimmed text and an id above all others is appended after the unchanged goals, and the add form is reset |
| DailyGoals.ToggleKeepsIdsDistinct | frontend/src/components/DailyGoals.js:16-23 | toggling keeps goal ids pairwise distinct |
| DailyGoals.DeleteKeepsIdsDistinct | frontend/src/components/DailyGoals.js:26-28 | deleting keeps goal ids pairwise distinct |
| DailyGoals.SaveEditKeepsIdsDistinct | frontend/src/components/DailyGoals.js:37-45 | saving an edit keeps goal ids pairwise distinct |
| DailyGoals.AddKeepsIdsDistinct | frontend/src/components/DailyGoals.js:54-66 | adding keeps goal ids pairwise distinct |
| DailyGoals.InitialIdsDistinct | frontend/src/components/DailyGoals.js:5-9 | the three initial goals have distinct ids |
| ChatWindow.BeginSend | frontend/src/components/ChatWindow.js:62-84 | the text sent (`TextToSend`) is the argument when one is given and the input box otherwise; a blank text sends nothing; otherwise the user's message and turn are appended, the input is cleared, the typing indicator is on, and the request carries the history as it was before this message |
| ChatWindow.FinishSend | frontend/src/components/ChatWindow.js:86-105 | a reply adds one bot message and one assistant turn; a failure adds the error text as a bot message and no turn; either way typing stops |
| ChatWindow.SendOutcomes | frontend/src/components/ChatWindow.js:62-105 | a whole send (`SendMessage`): nothing for a blank text; the user message then the reply on success; the user message then the error text on failure, with only the user turn added to the history |
| ChatWindow.ToHistory | frontend/src/components/ChatWindow.js:163-166 | the history implied by the screen messages has one turn per message, in the same position, with the user's messages as user turns, every other message as an assistant turn, and the text kept |
| ChatWindow.HistoryOfAppend | frontend/src/components/ChatWindow.js:163-166 | the implied history of a longer screen extends the implied history of the shorter one, and only no messages imply no turns |
| ChatWindow.SendKeepsHistoryInStep | frontend/src/components/ChatWindow.js:62-105 | a successful send keeps the history equal to the one the screen implies; a failed send leaves the screen one bot message (the error text) ahead of the history |
| ChatWindow.ApplyFetchedHistory | frontend/src/components/ChatWindow.js:146-173 | a failed fetch changes nothing; otherwise the fetched list (empty when absent) replaces messages and history one for one, with sender "user" mapped to user and anything else to bot/assistant |
| ChatWindow.FetchedHistoryInStep | frontend/src/components/ChatWindow.js:156-169 | after loading, the history is exactly the one the screen messages imply |
| ChatWindow.JournalRequest | frontend/src/components/ChatWindow.js:23-41 | no request is made exactly when there are no messages on screen; otherwise it carries the whole history |
| Calendar.IsFutureMonth | frontend/src/components/Calendar.js:9-13 | a month is in the future exactly when it comes after the current month in (year, month) order |
| Calendar.AddMonths | frontend/src/components/Calendar.js:17 | `new Date(y, m + direction, 1)` moves exactly `direction` months, carrying into the year |
| Calendar.JanuaryBackIsPreviousDecember | frontend/src/components/Calendar.js:17 | one month back from January is December of the previous year, and one forward from December is January of the next |
| Calendar.NavigateMonth | frontend/src/components/Calendar.js:16-21 | navigation never lands on a future month, never leaves the past once there, moves by exactly `direction` when it moves, and does move whenever the target is not in the future |
| Calendar.ShowsForwardArrow | frontend/src/components/Calendar.js:96-103 | the forward arrow shows exactly when the viewed month is before the current month |
| Calendar.ForwardArrowIffNavigable | frontend/src/components/Calendar.js:16-21 | the forward arrow shows exactly when clicking it would change the month |
| Calendar.DaysInMonth | frontend/src/components/Calendar.js:34 | `lastDay.getDate()` of the Gregorian calendar: between 28 and 31 |
| Calendar.MonthLength | frontend/src/components/Calendar.js:33-41 | the day number of the next month's first (`MonthStart`), December running into January of the next year, is the month's length after this month's first: the month lengths and the weekday arithmetic agree |
| Calendar.MonthStartFromMarch | frontend/src/components/Calendar.js:33-34 | the first of a month lies a fixed number of days after the 1 March that starts its year, counting January and February with the previous year |
| Calendar.FebruaryLength | frontend/src/components/Calendar.js:34 | from 1 February to 1 March there are 29 days in a leap year and 28 otherwise |
| Calendar.DecemberLength | frontend/src/components/Calendar.js:34 | from 1 December to 1 January of the next year there are 31 days |
| Calendar.OtherMonthLength | frontend/src/components/Calendar.js:34 | for every other month but December, the next month's first comes the month's length later |
| Calendar.OffsetsGiveLengths | frontend/src/components/Calendar.js:34 | consecutive March-based offsets differ by the length of the month between them |
| Calendar.ShiftedYearLength | frontend/src/components/Calendar.js:34 | from one 1 March to the next there are 366 days exactly when the February in between is in a leap year |
| Calendar.AddEras | frontend/src/components/Calendar.js:34 | whole 400-year cycles do not change a year's remainders modulo 4, 100 and 400, so the leap-year rule repeats every 400 years |
| Calendar.Weekday | frontend/src/components/Calendar.js:41 | `getDay()` is between 0 (Sunday) and 6 |
| Calendar.EpochIsThursday | frontend/src/components/Calendar.js:41 | 1 January 1970 has day number 0 and was a Thursday |
| Calendar.LeapDay2000 | frontend/src/components/Calendar.js:34 | February 2000 has 29 days, and 29 February 2000 was a Tuesday |
| Calendar.Century1900 | frontend/src/components/Calendar.js:34 | February 1900 has 28 days, and 1 March 1900 was a Thursday |
| Calendar.Pad2 | frontend/src/components/Calendar.js:47 | `padStart(2, '0')` of a number below 100 is two digits that read back as the number |
| Calendar.DateKeyRoundTrip | frontend/src/components/Calendar.js:47-51 | a date key (`DateKey`), for a year from 0 on and a two-digit day, parses back to its date |
| Calendar.DateKeyInjective | frontend/src/components/Calendar.js:47-52 | two such dates with the same key are the same date |
| Calendar.HasJournalIffSameDate | frontend/src/components/Calendar.js:49-53 | a cell is marked as having a journal exactly when some entry falls on its date |
| Calendar.RenderCalendar | frontend/src/components/Calendar.js:32-82 | the grid is 0 to 6 blanks (the weekday of the 1st) followed by one cell per day of the month, numbered from 1 in order |
| Calendar.DayCells | frontend/src/components/Calendar.js:45-79 | one cell per day, numbered 1 to the month's length |
| Calendar.DayCellsUnderTheirWeekday | frontend/src/components/Calendar.js:41-45 | each day cell sits in its weekday's column, Sunday first |
| Calendar.CellFlags | frontend/src/components/Calendar.js:55-58 | a cell is never both past and future; today's cell is never future, and is past exactly when the clock is after midnight; a cell is future exactly when its day is after today; a cell has chats exactly when its key is among the chat days |
| TextCleaning.PrefixedRun | backend/ML/app.py:30 | `prefix\S+` matches at the start of a text exactly when the text starts with the prefix and a non-whitespace character; the match then runs over non-whitespace to the end of the text or to whitespace |
| TextCleaning.UrlMatch | backend/ML/app.py:30 | a match of `https?://\S+\|www\.\S+` exists at the start of a text exactly when one of the three prefixes is followed there by a non-whitespace character; it runs over non-whitespace to the end of the text or to whitespace |
| TextCleaning.RemoveAll | backend/ML/app.py:30-31 | `re.sub` with the empty replacement never lengthens the text |
| TextCleaning.RemoveAllLeavesNoMatch | backend/ML/app.py:30-31 | no match of the pattern starts anywhere in the result, including across the seam a removed match leaves |
| TextCleaning.RemoveAllSplits | backend/ML/app.py:30-31 | the text before the first match is kept as it is and the removal continues from there, so matches are cut out from left to right |
| TextCleaning.RemoveAllIdempotent | backend/ML/app.py:30-31 | removing a second time removes nothing more |
| TextCleaning.HeadStaysUnmatched | backend/ML/app.py:30-31 | a text at whose start no match begins still has none there after the removal |
| TextCleaning.UrlStaysUnmatched | backend/ML/app.py:30 | a text that does not start with a URL still does not once its URLs are removed |
| TextCleaning.PrefixStaysAbsent | backend/ML/app.py:30 | each of `https://`, `http://` and `www.` followed by a non-space is absent at the start after removing URLs when it was absent before |
| TextCleaning.TagStaysUnmatched | backend/ML/app.py:31 | a text that does not start with a tag still does not once its tags are removed |
| TextCleaning.UrlKeptHead | backend/ML/app.py:30 | after removing URLs the text agrees with the original up to its first whitespace character |
| TextCleaning.StartsCarriesOver | backend/ML/app.py:30 | a URL prefix followed by a non-space inside that agreeing part was already there before the removal |
| TextCleaning.TagStopOpenLine | backend/ML/app.py:31 | the scan for `>` stops at a newline or the end exactly when no `>` comes before the first newline |
| TextCleaning.OpenLineKept | backend/ML/app.py:31 | removing tags keeps a text with no `>` before its first newline in that shape |
| TextCleaning.KeepsFirst | backend/ML/app.py:30-31 | a character at which no match starts is kept |
| TextCleaning.TagMatch | backend/ML/app.py:31 | a match of `<.*?>` runs from `<` to the first `>` with no newline inside; when none matches, every `>` after the `<` has a newline before it |
| TextCleaning.RemovalKeepsUntouched | backend/ML/app.py:30-31 | removing every URL match keeps every whitespace character in order, and removing every tag match keeps every newline in order |
| TextCleaning.NoMatchUnchanged | backend/ML/app.py:30-31 | a text in which no match starts is returned unchanged |
| TextCleaning.RemovePunctuation | backend/ML/app.py:32 | exactly the word characters and whitespace stay, each as often as in the input |
| TextCleaning.RemoveDigits | backend/ML/app.py:33 | no digit is left, and every other character stays as often as in the input |
| TextCleaning.Collapse | backend/ML/app.py:34 | `\s+` to one space: the result is empty only for the empty text, starts with a space exactly when the text starts with whitespace, and is single-spaced |
| TextCleaning.CollapseKeepsWords | backend/ML/app.py:34 | collapsing keeps every non-whitespace character, in order |
| TextCleaning.CollapseKeepsSplit | backend/ML/app.py:34 | `str.split()` gives the same words before and after collapsing, so every whitespace run between two words becomes a separator and none disappears |
| TextCleaning.CollapseWord | backend/ML/app.py:34 | a run without whitespace passes through the collapse unchanged |
| TextCleaning.NormalizeSpace | backend/ML/app.py:34 | collapse then strip: single spaces only, none at either end |
| TextCleaning.PySplitWords | backend/ML/app.py:38 | `split()` (`PySplit`) yields non-empty words without whitespace |
| TextCleaning.SplitJoinWords | backend/ML/app.py:38-41 | splitting a single-space join of whitespace-free words gives the words back |
| TextCleaning.JoinSplitWellSpaced | backend/ML/app.py:34-38 | a stripped, single-spaced text is the single-space join of its words |
| TextCleaning.WordsSatisfy | backend/ML/app.py:38 | when every character is whitespace or has a property, every character of every word has it |
| TextCleaning.KeptLemmas | backend/ML/app.py:39 | the list comprehension keeps at most as many words as it is given |
| TextCleaning.KeptLemmasAreFiltered | backend/ML/app.py:39 | the kept lemmas are, in order, the lemmas of exactly the words that are not stopwords |
| TextCleaning.CleanShape | backend/ML/app.py:29-34 | the cleaned text (`Clean`) is well spaced and holds only spaces and word characters that are not digits |
| TextCleaning.ClassesBeforeCollapse | backend/ML/app.py:32-33 | after the punctuation and digit steps, every character is whitespace or a word character that is not a digit |
| TextCleaning.CollapseShape | backend/ML/app.py:34 | collapsing turns whitespace into spaces and keeps the other characters' class |
| TextCleaning.NormalizedShape | backend/ML/app.py:34 | collapsing and stripping turn whitespace into spaces and keep the other characters' class |
| TextCleaning.CleanWords | backend/ML/app.py:34-38 | the words given to the lemmatizer rejoin to the cleaned text, and consist only of word characters that are not digits |
| TextCleaning.OutputWords | backend/ML/app.py:38-41 | for `preprocess_text` (`Preprocess`): when the lemmatizer returns whitespace-free words, splitting the output gives back exactly the kept lemmas |
| Predict.PassingBelow | backend/ML/app.py:57-62 | the indices selected by the `score > threshold` filter are below the bound, each above 0.3, and strictly increasing (class order) |
| Predict.PassingComplete | backend/ML/app.py:58-62 | every class whose probability exceeds 0.3 is selected |
| Predict.PassingIff | backend/ML/app.py:58-62 | a class is selected if and only if its probability exceeds 0.3 |
| Predict.IncreasingBelow | backend/ML/app.py:58-62 | strictly increasing indices below `n` number at most `n`, so there are no more predictions than labels |
| Predict.RoundHalfEven | backend/ML/app.py:59 | the integer nearest to a real, with exact halves going to the even neighbour (Python's `round`) |
| Predict.Round3 | backend/ML/app.py:59 | `round(x, 3)` is a whole number of thousandths within 0.0005 of `x`, and on a tie it is the even number of thousandths |
| Predict.RoundHalfEvenNearest | backend/ML/app.py:59 | no integer is nearer to a real than the one the rounding picks |
| Predict.Round3Nearest | backend/ML/app.py:59 | no multiple of 0.001 is nearer to `x` than `round(x, 3)` |
| Predict.RoundedStaysAtThreshold | backend/ML/app.py:57-61 | a probability that passed the threshold is never reported below 0.3 |
| Predict.ReportedScoreCanEqualThreshold | backend/ML/app.py:57-61 | a probability of 0.3004 passes, and its reported score is exactly 0.3: the reported score is not strictly above the threshold |
| Predict.LabelledBelow | backend/ML/app.py:58-62 | the comprehension fails (a 500 reply) exactly when a passing class has no label; otherwise it yields one prediction per passing class, in class order, with that class's label and rounded score |
| Predict.ReportedScoresAtLeastThreshold | backend/ML/app.py:58-62 | every reported score is at least 0.3 |
| Predict.KerasPredict | backend/ML/app.py:43-67 | a 400 reply with "Text field is required." exactly when `text` is missing; for the classifier's probabilities of the cleaned text, a 500 exactly when a class above 0.3 lies beyond the label list; otherwise the raw text is echoed and the predictions are, in class order, exactly the classes above 0.3, each with `emotion_labels[i]` and its score rounded to three decimals |
| Predict.ListLabelled | backend/ML/app.py:57-61 | over a label list the comprehension raises exactly when a passing class lies beyond the list, and otherwise labels each passing class by position, at most one per label |
| Predict.KerasSeesCleanedText | backend/ML/app.py:49-55 | two bodies whose texts clean alike get the same outcome and the same predictions, each echoing its own raw text |
| Predict.RobertaPredict | backend/ML_MODEL/app.py:15-39 | a 400 reply exactly when `text` is missing; for the softmax of the text, a 500 exactly when a class above 0.3 has no entry in `id2label`; otherwise the text is echoed and the predictions are, in class order, exactly the classes above 0.3, each with `id2label[i]` and its score rounded to three decimals |
| Predict.SumCoversPassing | backend/ML_MODEL/app.py:26-34 | non-negative probabilities sum to at least 0.3 times the number of classes above 0.3 |
| Predict.AtMostThreePass | backend/ML_MODEL/app.py:26-34 | a softmax distribution lets at most three classes pass 0.3 |
| Predict.ThreeCanPass | backend/ML_MODEL/app.py:26-34 | three classes can pass: the bound is reached |
| Predict.RobertaAtMostThree | backend/ML_MODEL/app.py:26-39 | the RoBERTa service reports at most three emotions |
| Analyze.Get | backend/ML/important.py:253-257 | a dictionary lookup succeeds exactly when the key is present, and yields a value stored under it |
| Analyze.Put | backend/ML/important.py:256 | `d[k] = v`: afterwards `k` maps to `v`, and every other key maps to what it did before |
| Analyze.PutKeepsPositions | backend/ML/important.py:256 | assignment keeps the insertion order of the keys: it appends a new key and overwrites a present key in place |
| Analyze.PutAppendsNew | backend/ML/important.py:256 | storing a key that is absent appends the pair at the end |
| Analyze.PutKeepsUnique | backend/ML/important.py:256 | assignment keeps the keys distinct |
| Analyze.Collect | backend/ML/important.py:252-257 | the loop raises (an `IndexError` on `emotion_labels[i]`) exactly when a passing class has no label |
| Analyze.CollectStep | backend/ML/important.py:254-257 | one more class either stores its probability under its label, when it passes, or leaves every lookup as it was |
| Analyze.CollectUnique | backend/ML/important.py:252-257 | the collected dictionary has distinct keys |
| Analyze.CollectHoldsLabel | backend/ML/important.py:252-257 | a label is in the dictionary if and only if some class with that label passes |
| Analyze.CollectLastWins | backend/ML/important.py:252-257 | a label's value is the probability of the last passing class with that label |
| Analyze.SortedScores | backend/ML/important.py:238-262 | the sorted dictionary exists exactly when the loop does not raise; it holds the same pairs as the loop's dictionary, in non-increasing score order |
| Analyze.Rebuild | backend/ML/important.py:260 | rebuilding a dictionary from items with distinct keys gives back those items in order |
| Analyze.PermutationSameLookup | backend/ML/important.py:260 | reordering the items of a dictionary with distinct keys changes no lookup |
| Analyze.SortedScoresKeepPassing | backend/ML/important.py:238-262 | after sorting, a label is present if and only if some class with it passes, and its score is that of the last such class |
| Analyze.LabelIndex | backend/ML/important.py:257 | the position of a label in the label list, or the list's length when absent |
| Analyze.LabelIndexDistinct | backend/ML/important.py:257 | with distinct labels, the position of the `m`-th label is `m` |
| Analyze.PairsInLabelOrder | backend/ML/important.py:254-257 | the passing pairs, taken in class order, have their labels in label-list order |
| Analyze.CollectIsPairs | backend/ML/important.py:252-257 | with distinct labels, the loop's dictionary is exactly the list of passing (label, probability) pairs in class order |
| Analyze.TiesInLabelOrder | backend/ML/important.py:260 | `sorted(..., reverse=True)` is stable: equal scores keep the order of their labels in the label list |
| Analyze.FillLookup | backend/ML/important.py:284-285 | after the record loop (`Fill`), an emotion's key holds its score and every other key holds what it did before |
| Analyze.RecordLookup | backend/ML/important.py:283-285 | a record (`Record`) maps each emotion to its score, maps "date" to the entry's date unless an emotion is itself labelled "date", and holds nothing else |
| Analyze.DateLabelHidesDate | backend/ML/important.py:283-285 | an emotion labelled "date" overwrites the entry's date in its record |
| Analyze.AnalyzeEmotion | backend/ML/important.py:238-262 | `analyze_emotion` returns, when it does not raise, emotions with distinct labels in non-increasing score order |
| Analyze.EntryRecord | backend/ML/important.py:276-287 | an entry yields no record exactly when it lacks "date" or "text" or its analysis raises |
| Analyze.AnalyzeEntries | backend/ML/important.py:264-292 | the call fails exactly when some entry lacks "date" or "text" or its analysis raises; otherwise there is one record per entry, in order, each that entry's record |
| Analyze.RecordsCarryDates | backend/ML/important.py:276-287 | when no label is "date", each record holds its entry's date under "date" |
| EmotionPie.Capitalize | frontend/src/components/EmotionPieChart.js:83 | the length is kept, every character after the first is kept, and the first is the same letter, not lower case |
| EmotionPie.CapitalizeIdempotent | frontend/src/components/EmotionPieChart.js:83 | capitalising twice is capitalising once |
| EmotionPie.CapitalizeFixes | frontend/src/components/EmotionPieChart.js:83 | a text that does not start with a lower-case letter is left as it is |
| EmotionPie.RoundHalfAway | frontend/src/components/EmotionPieChart.js:37 | the rounding `toFixed` applies: within 0.5 of the value, with the value's sign |
| EmotionPie.RoundHalfAwayNearest | frontend/src/components/EmotionPieChart.js:37 | no integer is nearer, and on a tie the one chosen is the one farther from zero |
| EmotionPie.RoundHalfAwayOdd | frontend/src/components/EmotionPieChart.js:37 | rounding is symmetric about zero |
| EmotionPie.RoundsIntegers | frontend/src/components/EmotionPieChart.js:37 | an integer rounds to itself |
| EmotionPie.Fixed2 | frontend/src/components/EmotionPieChart.js:37 | `Number(x.toFixed(2))` is `x` rounded to hundredths |
| EmotionPie.Fixed2KeepsHundredths | frontend/src/components/EmotionPieChart.js:37 | a whole number of hundredths is kept exactly |
| EmotionPie.SliceValue | frontend/src/components/EmotionPieChart.js:37 | a missing or non-numeric percentage counts as 0; a number is rounded to hundredths |
| EmotionPie.BuildPie | frontend/src/components/EmotionPieChart.js:36-50 | one label, value, fill colour and border colour per slice, in order: the capitalised label, the rounded percentage, and the label's colour at alpha 0.85 and 1 |
| EmotionPie.SliceColorsAreRgba | frontend/src/components/EmotionPieChart.js:38-46 | every slice colour is a hex colour whose three bytes come out as decimal rgba components with alpha 0.85 (fill) and 1 (border) |
| EmotionPie.FetchedSlices | frontend/src/components/EmotionPieChart.js:17-32 | a failed fetch gives no slices; a loaded one gives its distribution, or none when absent |
| EmotionPie.View | frontend/src/components/EmotionPieChart.js:65-80 | "Loading pie..." exactly while loading; "No data for this month." exactly when loaded with no slices; otherwise a chart with one label per slice |
| EmotionPie.FailedFetchShowsNoData | frontend/src/components/EmotionPieChart.js:24-31 | after a failed fetch the chart shows "No data for this month." |
| Colors.Utf16 | frontend/src/components/MoodTrendsChart.js:206-208 | `charCodeAt` sees UTF-16 code units: at least one per character, each below 0x10000 |
| Colors.HashUnits | frontend/src/components/MoodTrendsChart.js:205-208 | the hash `(hash * 31 + unit) >>> 0` stays an unsigned 32-bit value |
| Colors.HashLoop | frontend/src/components/MoodTrendsChart.js:205-208 | the loop over the code units computes the recursively defined hash |
| Colors.FallbackColor | frontend/src/components/MoodTrendsChart.js:204-209 | an unknown label's colour is one of the twelve palette entries |
| Colors.LabelKey | frontend/src/components/MoodTrendsChart.js:201 | a non-string label gives the empty key; a string label's key has no upper-case ASCII letter and no whitespace at either end |
| Colors.KeyColor | frontend/src/components/MoodTrendsChart.js:187-209 | a known mood key gets its own colour; any other key a palette colour |
| Colors.GetColor | frontend/src/components/MoodTrendsChart.js:186-210 | every label gets a mood colour or a palette colour |
| Colors.ColorIgnoresCase | frontend/src/components/MoodTrendsChart.js:201 | lower-casing a label first does not change its colour |
| Colors.PlainKey | frontend/src/components/MoodTrendsChart.js:201 | a label with no upper-case letter and no surrounding space is its own key |
| Colors.JoyColor | frontend/src/components/MoodTrendsChart.js:188 | `joy` is drawn in `#4bc0c0` |
| Colors.UpperCaseNeutralColor | frontend/src/components/MoodTrendsChart.js:196-201 | `NEUTRAL` gets neutral's colour |
| Colors.EmptyKeyColor | frontend/src/components/MoodTrendsChart.js:201-209 | a non-string label and the empty label both hash to 0 and get the first palette colour |
| Colors.ColorFor | frontend/src/components/EmotionPieChart.js:85-98 | the pie's `colorFor` on a string label picks the same colour as the trend chart's `getColor` |
| Colors.KeyColorAsWritten | frontend/src/components/MoodTrendsChart.js:202 | `map[key]` on a plain object: an own key's colour, an inherited member's name gives that member, anything else falls to the palette |
| Colors.ChartColorAsWritten | frontend/src/components/MoodTrendsChart.js:82-85 | the chart gets a colour exactly when the lookup yields a string; an inherited member makes `color.startsWith` throw |
| Colors.ConstructorLabelThrows | frontend/src/components/MoodTrendsChart.js:202-215 | a label `constructor` makes the chart throw as written, while the corrected lookup gives it a palette colour that converts to `rgba(` |
| Colors.PieColorAsWritten | frontend/src/components/EmotionPieChart.js:92-101 | the pie's slice colour exists exactly when `colorFor` yields a string, which is the corrected colour for every key that names no inherited member; an inherited member makes `hex.startsWith` throw |
| Colors.PieConstructorLabelThrows | frontend/src/components/EmotionPieChart.js:92-101 | a label `constructor` makes the pie throw as written, while the corrected lookup's colour converts to `rgba(` |
| Colors.MixedCaseNamesRender | frontend/src/components/MoodTrendsChart.js:201-202 | `toString` gets a colour in both charts as written, since its key is lower-cased to `tostring`, which is no inherited name |
| Colors.OwnKeyRenders | frontend/src/components/MoodTrendsChart.js:201-202 | an unpadded label whose lower-casing is no inherited name gets a colour in both charts as written |
| Colors.LowerKey | frontend/src/components/MoodTrendsChart.js:201 | the key of an unpadded label is its lower-casing |
| Colors.AsWrittenAgreesElsewhere | frontend/src/components/MoodTrendsChart.js:202 | for every key that names no inherited member, the code as written and the corrected lookup draw the same colour |
| Colors.HexValue | frontend/src/components/MoodTrendsChart.js:224-226 | a hex digit's value is below 16 |
| Colors.HexRun | frontend/src/components/MoodTrendsChart.js:224-226 | `parseInt` reads the longest run of hex digits |
| Colors.ParseInt16 | frontend/src/components/MoodTrendsChart.js:224-226 | `parseInt(s, 16)` is NaN exactly when, after leading space, a sign and a `0x` prefix, no hex digit follows |
| Colors.HexByte | frontend/src/components/MoodTrendsChart.js:224-226 | two hex digits make a byte |
| Colors.ParseTwoHexDigits | frontend/src/components/MoodTrendsChart.js:224-226 | two hex digits parse to their byte value |
| Colors.Substring | frontend/src/components/MoodTrendsChart.js:224-226 | `substring(a, b)` within the string is the slice |
| Colors.RemoveFirst | frontend/src/components/MoodTrendsChart.js:223 | `replace('#', '')` drops only the first `#`, and leaves a string without one as it is |
| Colors.RunNot | frontend/src/components/MoodTrendsChart.js:217-220 | a `[^,]+` group runs up to the first stop character |
| Colors.RunNotExact | frontend/src/components/MoodTrendsChart.js:217 | a group free of the stop character, followed by it, is read whole |
| Colors.MatchGroups | frontend/src/components/MoodTrendsChart.js:217-220 | a match's groups are non-empty, free of their stop characters, and interleaved with them spell the matched text |
| Colors.GroupsStep | frontend/src/components/MoodTrendsChart.js:217 | one group and its stop in front of a matched rest form a match |
| Colors.MatchGroupsComplete | frontend/src/components/MoodTrendsChart.js:217-220 | groups that fit the pattern are matched exactly, whatever follows |
| Colors.MatchAt | frontend/src/components/MoodTrendsChart.js:217 | a match at a position covers at least the literal prefix and stays in the string |
| Colors.FirstMatch | frontend/src/components/MoodTrendsChart.js:217-220 | `replace` with a regular expression without `g` uses the leftmost match: it matches there and at no earlier position, and with no match none matches anywhere |
| Colors.ReplaceFirstMatch | frontend/src/components/MoodTrendsChart.js:217-220 | no match leaves the colour alone; otherwise the text before the match is kept, the match becomes `rgba(r,g,b,alpha)`, and the text after it is kept |
| Colors.SplicedParts | frontend/src/components/MoodTrendsChart.js:217 | a splice keeps its head and its tail |
| Colors.FalsyColorIsGrey | frontend/src/components/MoodTrendsChart.js:214 | an empty colour becomes grey at the requested alpha |
| Colors.ToRgba | frontend/src/components/EmotionPieChart.js:100-107 | the pie's `toRgba` leaves an `rgba` colour unchanged |
| Colors.ChartColorsAreHex | frontend/src/components/MoodTrendsChart.js:187-204 | every mood and palette colour is `#` and six hex digits |
| Colors.HexBranchComponents | frontend/src/components/MoodTrendsChart.js:223-227 | a `#rrggbb` colour converts to its three bytes in decimal |
| Colors.HexToRgbaComponents | frontend/src/components/MoodTrendsChart.js:213-227 | for a hex colour both charts' converters (`HexOrRgbaToRgba` with its `HexToRgba` branch, and the pie's `toRgba`) agree and give its three bytes, each below 256 |
| Colors.HexColorConverts | frontend/src/components/MoodTrendsChart.js:222-227 | a hex colour comes out as an `rgba(` colour |
| Colors.RgbaOfPrefix | frontend/src/components/MoodTrendsChart.js:227 | the template starts with `rgba(` |
| Colors.RgbaBody | frontend/src/components/MoodTrendsChart.js:217 | four groups with the rgba stops spell `r,g,b,a)` |
| Colors.RgbBody | frontend/src/components/MoodTrendsChart.js:220 | three groups with the rgb stops spell `r,g,b)` |
| Colors.MatchWhole | frontend/src/components/MoodTrendsChart.js:217-220 | a colour that is exactly the prefix and the groups matches whole, from its start |
| Colors.RgbaGetsNewAlpha | frontend/src/components/MoodTrendsChart.js:215-217 | an `rgba(r,g,b,a)` colour keeps its components and gets the new alpha |
| Colors.RgbGetsAlpha | frontend/src/components/MoodTrendsChart.js:219-220 | an `rgb(r,g,b)` colour becomes `rgba(r,g,b,alpha)` |
| MoodTrends.SortedEntries | frontend/src/components/MoodTrendsChart.js:47-49 | a non-array body gives no entries; an array is put in date order as a permutation of the entries received |
| MoodTrends.SortedEntriesStable | frontend/src/components/MoodTrendsChart.js:48 | the sort is stable: entries with the same time keep their order in the response |
| MoodTrends.ScoreMap | frontend/src/components/MoodTrendsChart.js:54-57 | the table's keys are exactly the entry's labels, and a repeated label keeps the score of its last prediction |
| MoodTrends.ScoreMapStep | frontend/src/components/MoodTrendsChart.js:55-57 | one more assignment `obj[p.label] = p.score` keeps the table exact |
| MoodTrends.SameLabelsStep | frontend/src/components/MoodTrendsChart.js:55-57 | one more assignment keeps the key set equal to the labels seen |
| MoodTrends.LastScoreStep | frontend/src/components/MoodTrendsChart.js:55-57 | one more assignment keeps every label at its last score |
| MoodTrends.Transform | frontend/src/components/MoodTrendsChart.js:53-59 | one point per entry, in order, with the entry's date and its score table |
| MoodTrends.LabelsOf | frontend/src/components/MoodTrendsChart.js:64-67 | every label of every entry is collected, and nothing else is |
| MoodTrends.LabelsStep | frontend/src/components/MoodTrendsChart.js:65-67 | adding one entry's labels keeps the collection complete and sound |
| MoodTrends.MakeDataset | frontend/src/components/MoodTrendsChart.js:82-99 | a label's dataset carries its name and one value per point: the point's score for the label, or 0 where it has none, which is what `\|\| 0` is meant to give (the value as written for inherited names: MoodTrends.ValueAsWritten) |
| MoodTrends.ValueAsWritten | frontend/src/components/MoodTrendsChart.js:88 | as written, a label that is no inherited name plots its score or 0; a missing label naming an `Object.prototype` member, and `__proto__` always, give a value that is not a number |
| MoodTrends.DataAsWritten | frontend/src/components/MoodTrendsChart.js:88 | the dataset's values as written agree with MakeDataset's for every label that is no inherited name, and are not numbers where an inherited-name label is missing |
| MoodTrends.ToStringLeavesGap | frontend/src/components/MoodTrendsChart.js:88 | for entries with `toString` 0.4 on one day and only `joy` the next, the `toString` values as written are 0.4 and not a number, where 0.4 and 0 are meant |
| MoodTrends.ToStringPoints | frontend/src/components/MoodTrendsChart.js:53-56 | the two entries of that example become the points `{toString: 0.4}` and `{joy: 0.9}` |
| MoodTrends.Datasets | frontend/src/components/MoodTrendsChart.js:82 | one dataset per label, in label order |
| MoodTrends.BuildChart | frontend/src/components/MoodTrendsChart.js:47-68 | the x axis shows the sorted entries' dates; the datasets are the labels once each in first-seen order, each with one value per date |
| MoodTrends.DatasetPerLabel | frontend/src/components/MoodTrendsChart.js:64-82 | no label gets two datasets, every label seen gets one, and no dataset is for a label never seen |
| MoodTrends.DedupOfLabels | frontend/src/components/MoodTrendsChart.js:64-68 | `Array.from(new Set(...))` of the collected labels holds each seen label exactly once |
| MoodTrends.DatasetValues | frontend/src/components/MoodTrendsChart.js:56-88 | a date with no prediction for the label plots 0; otherwise it plots the last score given for the label that day |
| JournalService.RetryFrom | frontend/src/services/journalService.js:11-21 | after `made` calls, the run stops at the first call that does not time out or when the retries are used up, returns that call's outcome, and every earlier call timed out |
| JournalService.WithRetry | frontend/src/services/journalService.js:11-21 | between one and `retries + 1` calls; the result is the last call's outcome; every earlier call timed out; stopping early means the last outcome was no timeout |
| JournalService.FirstSuccessReturned | frontend/src/services/journalService.js:12-13 | a first call that succeeds is returned after one call |
| JournalService.OtherErrorRethrown | frontend/src/services/journalService.js:15-19 | an error whose code is not `ECONNABORTED` is rethrown without a retry |
| JournalService.AllTimeoutsExhaust | frontend/src/services/journalService.js:15-19 | when every call times out, `retries + 1` calls are made and the last timeout is thrown |
| JournalService.RetryStopsAtFirstNonTimeout | frontend/src/services/journalService.js:11-21 | the run ends exactly at the first call that does not time out, or at the last call allowed |
| JournalService.DefaultAtMostFourCalls | frontend/src/services/journalService.js:11 | with the default of three retries, at most four requests go out |
| JournalService.RetriesOf | frontend/src/services/journalService.js:24-95 | only `getJournals` goes through `withRetry` |
| JournalService.ErrorMessage | frontend/src/services/journalService.js:34 | a non-empty server message is passed on; a missing or empty one gives the function's own fallback message |
| JournalService.CallService | frontend/src/services/journalService.js:24-95 | every function but the listing makes one request; the listing makes one to four; on success `deleteJournal` resolves to `undefined` and every other function to the response data; failure throws with the chosen message |
| JournalService.Resolved | frontend/src/services/journalService.js:87-95 | `deleteJournal` resolves to nothing, every other function to `response.data` |
| JournalService.TimeoutsOnlyRetriedByListing | frontend/src/services/journalService.js:24-95 | a first timeout ends every call but the listing's, which tries again |
| Conversation.SelectClosed | backend/controllers/journalController.js:23-26 | the caller's messages with `lo <= timestamp <= hi`, each as often as stored and nothing else, in ascending time order |
| Conversation.SelectHalfOpen | backend/scripts/generateJournals.js:23-29 | the user's messages with `lo <= timestamp < hi`, each as often as stored and nothing else, in ascending time order |
| Conversation.FilterCounts | backend/scripts/generateJournals.js:66-72 | a store filter keeps every matching message as often as stored and drops every other |
| Conversation.DayWindowsAgree | backend/scripts/generateJournals.js:26-27 | on whole-millisecond times the script's half-open day and the controller's closed day up to 23:59:59.999 select the same messages in the same order |
| Conversation.LineOf | backend/controllers/journalController.js:32-33 | a line starts with `User: ` exactly when the sender is `user`, and with `Assistant: ` exactly when it is not |
| Conversation.SpeakerPrefix | backend/controllers/journalController.js:33 | the speaker prefix decides the line's start both ways |
| Conversation.Lines | backend/controllers/journalController.js:32-34 | one line per message, in order |
| Conversation.TranscriptLines | backend/controllers/journalController.js:32-34 | when no message text holds a newline, splitting the transcript (`Transcript`) at newlines gives back exactly one line per message |
| Conversation.EmptyTranscript | backend/controllers/journalController.js:34 | no messages give the empty transcript |
| JournalController.NewestFirst | backend/controllers/journalController.js:6 | exactly the caller's entries, each as often as stored, newest first |
| JournalController.NewestFirstFacts | backend/controllers/journalController.js:6 | filtering by owner and then sorting by descending date keeps exactly the owner's entries |
| JournalController.NewestFirstAsWritten | backend/controllers/journalController.js:6 | the listing as written: exactly the caller's entries, each as often as stored, ordered by the stored text of their dates, greatest first |
| JournalController.WeekdayNameDecidesOrder | backend/controllers/journalController.js:6 | an entry of a Wednesday and one of the following Thursday are listed as written with the older first, because `Wed` sorts after `Thu`, while the intended order puts the newer first |
| JournalController.TwoEntries | backend/controllers/journalController.js:6 | a listing of two different entries holds them in one of the two orders |
| JournalController.GetAllJournals | backend/controllers/journalController.js:4-12 | a failing query gives 500 with the fixed message `Server error while fetching journals`; otherwise the list holds exactly the caller's entries, newest first |
| JournalController.DayMessages | backend/controllers/journalController.js:18-26 | the messages `generateFromChat` reads are exactly the caller's messages of the requested day, each as often as stored, in time order |
| JournalController.Prompt | backend/controllers/journalController.js:41 | the prompt starts with the fixed instructions and the date, and ends with `Conversation:` on its own line followed by the transcript |
| JournalController.DayPrompt | backend/controllers/journalController.js:41 | the prompt starts with the instructions naming the date as the request wrote it, and ends with `Conversation:` on its own line followed by that day's transcript |
| JournalController.GenerateFromChat | backend/controllers/journalController.js:14-63 | 400 "No messages found for this date" exactly when the caller has no message that day; a non-201 reply saves nothing; a 201 reply appends one entry for the caller, dated by the request, whose content is the `response` of the model's reply to that day's prompt, present or not, with mood `neutral`, marked as generated |
| JournalController.NoMessagesNoGeneration | backend/controllers/journalController.js:28-30 | with no messages that day the outcome depends on neither the model nor the store, so neither is used |
| JournalController.GenerationSaves | backend/controllers/journalController.js:46-58 | when the model answers and the save succeeds, exactly the returned entry is appended |
| JournalController.ErrorReplyIsSaved | backend/controllers/journalController.js:46-58 | a model reply without `response` is still saved, as an entry without content, and answered with 201 |
| JournalController.FindOwned | backend/controllers/journalController.js:67 | `findOne({ _id, userId })`: the first entry with that id owned by the caller, or none when there is no such entry |
| JournalController.DeleteJournal | backend/controllers/journalController.js:65-78 | an id that cannot be cast is a 500 reply with the cast error's message; otherwise 404 exactly when the caller owns no entry with that id; "Journal entry deleted" exactly when the id is well formed, the caller owns such an entry and `remove()` does not throw, and then that one entry, and only it, is removed; every other reply changes nothing |
| JournalController.DeleteKeepsOthers | backend/controllers/journalController.js:67-72 | a deletion removes at most one entry and never another user's |
| GenerateJournals.DeleteDay | backend/scripts/generateJournals.js:66-72 | `deleteMany` removes every message of the user in the window and keeps every other message as often as stored |
| GenerateJournals.DeletesExactlyTheSelection | backend/scripts/generateJournals.js:23-29 | what is deleted is exactly what the journal was written from |
| GenerateJournals.ProcessUser | backend/scripts/generateJournals.js:17-73 | an error exits with 1; a user with no messages leaves the store alone; a failed model call exits with 1 and an unchanged store; with messages, an answer and no failing write, the turn appends the neutral generated journal holding the reply for that user and day and deletes exactly that day's messages; at most one script journal is added; messages change only in a turn that saved its journal |
| GenerateJournals.UserIds | backend/scripts/generateJournals.js:55 | one user id per journal |
| GenerateJournals.RunFrom | backend/scripts/generateJournals.js:16-81 | the exit code is 0 or 1; journals are only appended, each neutral and generated, at most one per user; messages are only removed (which journals, when nothing fails: NoFaultWritesEachJournal) |
| GenerateJournals.RunStep | backend/scripts/generateJournals.js:16-74 | one user's turn followed by the rest of the run keeps both run invariants |
| GenerateJournals.ExtendsOne | backend/scripts/generateJournals.js:54-62 | a turn adding at most one journal for its user, before the rest of the run, stays within one journal per user |
| GenerateJournals.ExtendsWiden | backend/scripts/generateJournals.js:31 | a turn that adds nothing stays within the bound |
| GenerateJournals.ExtendsAppended | backend/scripts/generateJournals.js:54-62 | a turn that adds its user's journal stays within the bound |
| GenerateJournals.TurnOnlyRemoves | backend/scripts/generateJournals.js:66-72 | a turn never adds a message |
| GenerateJournals.Run | backend/scripts/generateJournals.js:7-82 | the whole run exits with 0 or 1, adds at most one neutral generated journal per user, and only removes messages (which journals, when nothing fails: RunWritesEachJournal) |
| GenerateJournals.RunWritesEachJournal | backend/scripts/generateJournals.js:14-77 | for the users `User.find({})` returns, each once, when the model always answers and no write throws: the run exits with 0, gains exactly one journal holding the model's reply for each user who had messages yesterday, in user order, and deletes exactly those users' messages of that day |
| GenerateJournals.OtherUsersKeepMessages | backend/scripts/generateJournals.js:66-72 | messages of anyone not among the users are left as they are |
| GenerateJournals.ScriptSave | backend/scripts/generateJournals.js:54-62 | the journal schema rejects every document the script builds, since none has a `title` |
| GenerateJournals.AsWrittenSavesNothing | backend/scripts/generateJournals.js:31-81 | when each answered turn's save is ScriptSave's verdict on the document it builds, the run neither adds a journal nor deletes a message, and exits with 0 exactly when no user from the current one on had messages yesterday |
| GenerateJournals.AsWrittenTurn | backend/scripts/generateJournals.js:31-62 | with its save judged by ScriptSave, a turn skips a user without messages yesterday and otherwise ends the run with 1, leaving the store untouched |
| GenerateJournals.CorrectedSave | backend/models/Journal.js:14-22 | once the document carries a title, the schema trims it and accepts the document exactly when the trimmed title and the content are non-empty; a save never fails as a delete |
| GenerateJournals.GeneratedPassesSchema | backend/scripts/generateJournals.js:54-62 | with a title that is not blank and every reply answered with non-empty content, the corrected save accepts every journal the no-fault run writes |
| GenerateJournals.StoredSave | backend/models/Journal.js:14-22 | with a stored title, the schema accepts exactly a document whose title and content are non-empty |
| GenerateJournals.GeneratedHaveText | backend/scripts/generateJournals.js:16-62 | from any user on, when every reply is substantial, every journal the no-fault run writes has non-empty content |
| GenerateJournals.HaveTextStep | backend/scripts/generateJournals.js:31-58 | the current turn's journal, written only when the user had messages, holds a substantial reply, ahead of the later turns' journals |
| GenerateJournals.HaveTextCons | backend/scripts/generateJournals.js:16-60 | a journal with text in front of journals with text gives journals that all have text |
| GenerateJournals.HaveTextAt | backend/scripts/generateJournals.js:16-60 | every position of a list of journals that all have text holds a journal with text |
| GenerateJournals.NoFaultExitsZero | backend/scripts/generateJournals.js:76-77 | when the model always answers and no write throws, the run exits with 0, whatever the user list |
| GenerateJournals.NoFaultWritesEachJournal | backend/scripts/generateJournals.js:16-77 | for distinct users, when the model always answers and no write throws: the run exits with 0, the journals gained are, in turn order, one per user who had messages yesterday, holding the model's reply to that user's transcript, and exactly the messages in those users' day windows are deleted |
| GenerateJournals.NoFaultStep | backend/scripts/generateJournals.js:31-72 | a turn in which nothing fails hands on a store with that user's journal and without that user's day of messages |
| GenerateJournals.RunContinues | backend/scripts/generateJournals.js:16 | a turn that carries on hands its store to the next turn |
| GenerateJournals.QuietTurn | backend/scripts/generateJournals.js:31 | a user without messages yesterday changes nothing and gets no journal |
| GenerateJournals.BusyTurn | backend/scripts/generateJournals.js:54-72 | an answered turn without failing writes appends the journal and deletes the day |
| GenerateJournals.BusyJournal | backend/scripts/generateJournals.js:54-60 | the journal a user with messages gets holds the reply, for that user and day, neutral and generated |
| GenerateJournals.BusyJournals | backend/scripts/generateJournals.js:66-72 | deleting one user's day does not change the journals the later users get |
| GenerateJournals.GeneratedIgnoresOthers | backend/scripts/generateJournals.js:23-29 | later users' selections do not see an earlier user's deletion |
| GenerateJournals.OtherSelectionKept | backend/scripts/generateJournals.js:23-29 | deleting one user's day leaves every other user's selection as it was |
| GenerateJournals.DeleteDayRemoved | backend/scripts/generateJournals.js:66-72 | the deletion removes exactly that user's day |
| GenerateJournals.SweptStep | backend/scripts/generateJournals.js:16 | a message is in the window of some user from the current one on iff it is in the current user's window or a later one |
| Auth.FindFirst | backend/controllers/authController.js:12-44 | `findOne`: the first user in store order matching the filter, or none when none matches |
| Auth.Register | backend/controllers/authController.js:8-37 | rejected exactly when some user has the email or the username, with the store unchanged and the message `Email already registered` exactly when the user found has the email; otherwise the user is stored with the hashed password and gets a token with its id |
| Auth.RegisterKeepsUnique | backend/controllers/authController.js:12-25 | a registration keeps emails and usernames pairwise distinct |
| Auth.MessageFollowsStoreOrder | backend/controllers/authController.js:12-18 | when the username is taken by an earlier user and the email by a later one, the reply says the username is taken |
| Auth.SequentialRegistrationsStayUnique | backend/controllers/authController.js:12-25 | under any sequence of registrations the store never holds two users with the same email or the same username |
| Auth.Login | backend/controllers/authController.js:40-67 | an unknown email and a wrong password both get the same 400 `Invalid credentials` with the store unchanged; a matching password for the first user with the email sets that user's `lastLogin` and returns its id |
| Auth.LoginOnlyTouchesLastLogin | backend/controllers/authController.js:54-55 | a login changes at most one user, and only its `lastLogin` |

## Left out

- Network and storage I/O: axios/fetch calls, the Ollama endpoints, MongoDB queries, `save`, `remove` and `deleteMany`. Stores are in-memory sequences; the language model, the transport and write failures are parameters.
- The login token's storage in `localStorage`, the `x-auth-token` header, JWT signing and its callback error, and the auth middleware. A token is modelled by the user id its payload carries.
- bcrypt: `genSalt` and `hash` are parameters, and `compare` is a predicate parameter.
- The 500 replies for registration and login: a store or signing error is not modelled.
- The emotion classifiers (tokenizer, padding, Keras and RoBERTa inference, softmax) and the nltk stopword list and lemmatizer. They are oracles, and the Unicode character database is a parameter (`TextCleaning.CharDb`).
- TextCleaning.Lower: `CharDb.lower` maps one character at a time. Python's context-dependent mappings, such as a final capital sigma becoming `ς`, are not modelled.
- The training script's matplotlib and seaborn plotting, the pandas DataFrame built from the records, and model training and pickling.
- IEEE double arithmetic. Scores and percentages are exact reals, so `round(x, 3)` and `toFixed(2)` round the exact value, not the nearest double.
- Time zones and daylight-saving shifts. Every day has 86 400 000 ms, and `new Date(dateString)` and `toISOString` are parameters or given as parsed values.
- Invalid dates (NaN times) in the mood-trends sort comparator and in the journal controller.
- JournalController.GenerateFromChat: the JournalEntry schema declares neither `content` nor `aiGenerated`, so mongoose's strict mode drops both from the saved document; the model keeps every field written.
- JournalController.DeleteJournal: `remove()` is a parameter that either succeeds or throws. Which one happens depends on the installed mongoose version: version 7 dropped `Document.remove`, and the call then throws. The model does not fix a version.
- Speech recognition, `setTimeout` delays, scrolling, and all JSX rendering other than the texts and data the components produce.
- The chat send button passing its click event as `customInput`: `sendMessage` is modelled on strings only.
- The chat controller and its routes, and the user, message and journal schemas, except for the fields the core reads.
- The mood-trends chart's loading and fetch-error states: the model starts from the parsed response.
- EmotionPie.Capitalize: uses ASCII case mapping, so a first character whose upper case is longer (`ß` becomes `SS`) is not modelled.
- Colors.ColorIgnoresCase: states case-insensitivity for ASCII letters only, because `Text.Lower` maps only `A`-`Z`.
- Colors.GetColor: `toLowerCase` is modelled as ASCII-only. A label such as `ÉMOTION` keeps its `É`, while JavaScript lower-cases it to `é`.
- Colors.ColorFor: the same ASCII-only lower-casing as `Colors.GetColor`.
- Colors.LabelKey: the same ASCII-only lower-casing, so its "no upper-case letter" clause covers `A`-`Z` only.
- Colors.Utf16: states the bounds of the code units, not the surrogate-pair encoding of each character.
- Analyze.RecordsCarryDates: holds only when no classifier label is `date`; `Analyze.DateLabelHidesDate` shows what happens otherwise.
- Analyze.AnalyzeEntries: an entry without `date` or `text` raises `KeyError` in Python; the model gives `None` for the whole call.
- Predict.KerasPredict: a missing label index raises `IndexError`, which Flask turns into a 500 reply; the model gives `InternalError` without a body.
- GenerateJournals.NoFaultExitsZero: states only the exit code, because it holds for any user list. The journals written and the messages deleted are stated by `GenerateJournals.RunWritesEachJournal` and `GenerateJournals.NoFaultWritesEachJournal`, which need each user to appear once, as `User.find({})` returns them.
- GenerateJournals.NoFaultWritesEachJournal: "no write throws" is a hypothesis about the environment, so a reply without content is still written there, although the schema would reject it. `GenerateJournals.GeneratedPassesSchema` shows that the hypothesis matches the corrected save whenever every reply has content and the title is not blank.
- A request body that is not a JSON object makes `'text' in data` raise in both services; the model takes the body as a map of string fields.
- MoodTrends.DatasetValues: a score of exactly 0 and a missing score both plot as 0, and NaN scores are not modelled. It states the intended `|| 0` value; for labels naming `Object.prototype` members the value as written differs (see Findings and `MoodTrends.ValueAsWritten`).
- MoodTrends.MakeDataset: plots 0 for every missing label, which is what `|| 0` is meant to give. As written, a missing label naming an `Object.prototype` member (and `__proto__` always) yields a value that is not a number; `MoodTrends.ValueAsWritten` and `MoodTrends.DataAsWritten` model that, and Findings records it. How Chart.js draws such a value is not modelled.

## Findings

| source | as written | input that shows it | evidently intended | confidence | as-written member | corrected member |
|---|---|---|---|---|---|---|
| frontend/src/components/MoodTrendsChart.js:202 | `if (map[key]) return map[key];` on a plain object literal, so a key naming an inherited member of `Object.prototype` finds that member, a function or an object rather than a string; at line 215 `color.startsWith` on that function is not a function, and rendering throws. `colorFor` at frontend/src/components/EmotionPieChart.js:92 has the same lookup, and there `toRgba`'s `hex.startsWith` (line 101) is what throws. | the label `constructor` or `__proto__`, in any letter case and with any surrounding whitespace. An inherited name with an upper-case letter, such as `toString`, is lower-cased to a key that is no inherited name and gets a palette colour (`Colors.MixedCaseNamesRender`) | only the twelve own keys of the map are looked up, and any other key falls through to the palette | not executed | Colors.KeyColorAsWritten, Colors.ChartColorAsWritten, Colors.ConstructorLabelThrows, Colors.PieColorAsWritten, Colors.PieConstructorLabelThrows, Colors.MixedCaseNamesRender | Colors.KeyColor, Colors.GetColor |
| frontend/src/components/MoodTrendsChart.js:88 | `entry.predictions[label] \|\| 0` reads a plain object filled at lines 53-56 by `obj[p.label] = p.score`, with the label as given (not lower-cased). For a label naming an `Object.prototype` member that an entry lacks, the lookup finds the inherited member, which is truthy, so it replaces the 0. For `__proto__` the assignment is ignored and the read gives `Object.prototype`. Either way the dataset holds a value that is not a number. | entries dated 2026-10-07 with `toString` 0.4 and 2026-10-08 with only `joy` 0.9: the `toString` dataset is `[0.4, ƒ toString]` | a date without the label plots 0 | not executed | MoodTrends.ValueAsWritten, MoodTrends.DataAsWritten, MoodTrends.ToStringLeavesGap | MoodTrends.MakeDataset, MoodTrends.DatasetValues |
| backend/controllers/journalController.js:6 | `.sort({ date: -1 })` on a model whose schema (backend/models/JournalEntry.js:5) declares `date` a string. The `Date` the handler writes is stored as its `toString()` rendering, which starts with the weekday name, so the listing is ordered by that text rather than by time. | two entries of one user, dated Wednesday 7 October 2026 and Thursday 8 October 2026: `Wed…` sorts after `Thu…`, so the older entry is listed first | the caller's entries newest first | not executed | JournalController.NewestFirstAsWritten, JournalController.WeekdayNameDecidesOrder | JournalController.NewestFirst, JournalController.GetAllJournals |
| backend/scripts/generateJournals.js:62 | `journal.save()` on the `Journal` model, whose schema (backend/models/Journal.js:18-22) requires a `title`, for a document the script builds without one. Validation rejects every save, the error reaches the outer `catch`, and the process exits with 1 before any message is deleted. | any user with at least one message yesterday | each such user gets a journal, yesterday's messages are deleted, and the run exits with 0 | not executed | GenerateJournals.ScriptSave, GenerateJournals.AsWrittenSavesNothing | GenerateJournals.RunWritesEachJournal, GenerateJournals.NoFaultWritesEachJournal, GenerateJournals.ProcessUser, GenerateJournals.CorrectedSave, GenerateJournals.GeneratedPassesSchema |
