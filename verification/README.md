# FUVEST study app: progress state and question-dataset rules

This project models two parts of a study app for the FUVEST entrance exam.

The first part is the front end's study-progress state:
- the question bank: option selection, submitting an answer, XP, day streak, answered and correct counters, the review list of wrongly answered questions, moving to the next question, the enriched-only filter, the accuracy badge;
- the syllabus checklist: toggling an item, completion percentages per subject and overall, the colour-theme fallback;
- the dashboard: books read, study suggestions ranked by priority and interleaved across History, Geography and Mathematics, the notepad, the three-day inactivity alert;
- the required-reading tracker: a status per book with a default, the read count and the progress ring;
- the local state changes made by the data-sync hooks: the fetched checklist and book-status maps, the optimistic checklist toggle, book status updates, and inserting and deleting practice-exam scores and notes.

The second part is the deterministic core of the Python tools that build one JSON file of 90 questions per exam year:
- recognising question-number markers among the words of a PDF page;
- the column-based question box, and skipping the cover page;
- clamping crop rectangles to the image;
- finding the numbers 1..90 a file lacks;
- building placeholder and recovered records and re-sorting them by number;
- cleaning up stems;
- building the answer-key map;
- completing the option map from OCR text and extracting the stem;
- choosing which questions are sent for enrichment;
- the crop audit's ratios, flags and row order;
- the publication gate: text normalisation, the placeholder test, pass or fail, warnings and the exit code.

Everything is pure functions over immutable datatypes. Whatever the programs read from the outside world is a parameter:
- PDF words and text;
- page images and the gray levels of a crop;
- OCR output;
- the regular-expression matches of the answer-key PDF;
- the matches of the three option patterns in the OCR text;
- the language model's answers;
- whether a file exists;
- the Supabase response;
- today's date;
- the random draws of the shuffle;
- the Unicode case, decomposition and combining tables.

The modules follow the programs:

| module | program |
|---|---|
| `Quiz` | `src/components/Questoes.jsx` |
| `Syllabus` | `src/components/ContentSyllabus.jsx` |
| `Dashboard` | `src/components/Dashboard.jsx` |
| `Readings` | `src/components/Readings.jsx` |
| `Sync` | `src/hooks/useSupabaseData.js` |
| `Questions` | the question record and the rules all the tools share |
| `Markers` | marker detection and the question box, in `complete_missing.py` and `fix_2015.py` |
| `Ocr` | `ocr.py` |
| `QaGate` | `qa_gate.py` |
| `CompleteMissing` | `complete_missing.py` |
| `Fix2015` | `fix_2015.py` |
| `Complete2021` | `complete_2021.py` |
| `Ingest` | `ingest.py` |
| `Enrich` | `enrich.py` |
| `Audit` | `audit_crops.py` |

`Seqs`, `Sorting`, `Text`, `Percent` and `Wrappers` are shared helpers:
- `Sorting` is one stable insertion sort on a two-part key. It stands for Python's `list.sort` and JavaScript's `Array.prototype.sort`, which are both stable.
- `Text` holds the Python and JavaScript whitespace classes and `str.strip`.
- `Percent` holds the integer form of `Math.round(100 * part / whole)`.

Percentages are integers. JavaScript's `Math.round(100 * c / t)` is `(200 * c + t) div (2 * t)`. A float test such as `pct > 50` becomes the integer comparison `2 * k > n`.

## Where the code and its description differ

- A comment in `fix_2015.py` names "CADERNO" as a cover word. The code tests for "CADERNO DE PROVA", and so does the model (`Markers.CoverWords`).
- The reading progress divides by the number of books. With no books it is `NaN`, not 0. The model returns `None` in that case (`Readings.ReadingProgress`).
- `fix_2015.py` and `qa_gate.py` read `q.get("number")` with a default. The model gives every record an integer number; an absent one is 0.
- The gate's "no run of two or more whitespace characters" holds only after `re.sub(r"\s+", " ", …)`. Lower-casing comes from the Unicode tables, so the model proves no lower-case property for arbitrary text (see `QaGate.Norm` below).

## Model

| member | source | states |
|---|---|---|
| Quiz.SelectOption | src/components/Questoes.jsx:57-60 | Once submitted, selecting an option changes nothing. Before that, the clicked key becomes the selection. |
| Quiz.NextStreak | src/components/Questoes.jsx:70-79 | The streak is unchanged when the last answer was today, one more when it was yesterday, and 1 otherwise. |
| Quiz.Grade | src/components/Questoes.jsx:67-93 | Answered goes up by one, and correct goes up by one exactly when the choice matches the key. XP gains 10 or 2. The last date becomes today. A correct answer removes the question from the review list; a wrong one puts it there. No other id enters or leaves the list, and `correct <= answered` and no-duplicates are preserved. |
| Quiz.Submit | src/components/Questoes.jsx:62-94 | With no selection, or once submitted, nothing changes. Otherwise the question is marked submitted and graded, and the stats invariant is kept. |
| Quiz.SubmittedIsFrozen | src/components/Questoes.jsx:57-63 | After a submit, further clicks and further submits change nothing, even on a later day. |
| Quiz.ReplayCounts | src/components/Questoes.jsx:85-93 | Over any history of answers, every answer counts once and every correct one once more, and `correct <= answered` with a duplicate-free review list always holds. |
| Quiz.WithoutKeepsNoDup | src/components/Questoes.jsx:82 | Removing an id from a duplicate-free review list leaves it duplicate-free. |
| Quiz.NextQuestion | src/components/Questoes.jsx:96-101 | The index advances, and the selection clears, only when this is not the last question. Otherwise nothing changes. The index stays in range. |
| Quiz.EnrichedOnly | src/components/Questoes.jsx:35 | Exactly the questions whose explanation exists and whose theory is not "Pendente" are kept. |
| Quiz.EnrichedOnlyInOrder | src/components/Questoes.jsx:35 | Filtering distributes over concatenation and keeps or drops a single question on its own merit, so the kept questions stay in bank order. |
| Quiz.Shuffle | src/components/Questoes.jsx:38 | Whatever the random draws, the shuffled list is a permutation of its input. |
| Quiz.Load | src/components/Questoes.jsx:35-42 | The loaded bank is a permutation of the enriched questions, starting at the first one with nothing selected. |
| Quiz.Accuracy | src/components/Questoes.jsx:116 | The badge is 0 before any answer. Otherwise it is the rounded percentage correct, within 0..100 when `correct <= answered`. |
| Syllabus.Flatten | src/components/ContentSyllabus.jsx:212 | The flattened list holds as many items as all the groups together. |
| Syllabus.FlattenInOrder | src/components/ContentSyllabus.jsx:212 | Flattening distributes over concatenation and one group flattens to its own items, so the list is every group's items, group after group, in order. |
| Syllabus.FlattenHas | src/components/ContentSyllabus.jsx:212 | An item is in the flattened list exactly when some group holds it. |
| Syllabus.Completed | src/components/ContentSyllabus.jsx:214 | The number of checked items is at most the number of items. |
| Syllabus.SectionProgress | src/components/ContentSyllabus.jsx:212-215 | A subject with no items shows 0. Otherwise it shows the rounded percentage of checked items, which is within 0..100. |
| Syllabus.Toggle | src/components/ContentSyllabus.jsx:259-262 | The toggled id's checked state flips, and every other key keeps its value. |
| Syllabus.ToggleTwice | src/components/ContentSyllabus.jsx:261 | Toggling the same id twice restores every item's checked state. |
| Syllabus.HandleToggle | src/components/ContentSyllabus.jsx:258-264 | The click flips the clicked item's checked state, leaves every other item's state alone, and records the current time as the last activity. |
| Syllabus.CheckingOneItemCountsOnce | src/components/ContentSyllabus.jsx:214 | Checking an unchecked item that is listed once raises the completed count by exactly one. |
| Syllabus.SameCountWithoutId | src/components/ContentSyllabus.jsx:214 | Toggling an id that no listed item has leaves the completed count unchanged. |
| Syllabus.GetTheme | src/components/ContentSyllabus.jsx:98-100 | A known name gives its theme; any other name falls back to violet. |
| Syllabus.ThemeRoundTrip | src/components/ContentSyllabus.jsx:98-100 | Looking a theme up by its own name gives it back. |
| Percent.Progress | src/components/Dashboard.jsx:112-117 | An empty list gives 0 (the `\|\| 0` on `NaN`). Otherwise the result is the nearest integer to `100 * completed / total`, halves rounded up, and lies in 0..100. |
| Percent.RoundPercent | src/components/Readings.jsx:87 | `Math.round(100 * part / whole)` is the integer within half a unit of the exact percentage, halves rounded up. It is 0 for no part, 100 for the whole, and within 0..100 in between. |
| Dashboard.MeanProgress | src/components/Dashboard.jsx:123-125 | The overall figure is the rounded mean of the three subject percentages, within 0..100 when they are. |
| Dashboard.OverallProgress | src/components/Dashboard.jsx:119-125 | The overall progress over the three subjects' checklists lies in 0..100. |
| Dashboard.BooksRead | src/components/Dashboard.jsx:127-130 | At most every book counts as read. |
| Dashboard.BooksReadAgreesWithReadCount | src/components/Dashboard.jsx:127-130 | The dashboard's count of read or summarized books equals the reading page's read count for the same statuses. |
| Dashboard.Unchecked | src/components/Dashboard.jsx:172-174 | The candidates are exactly the subject's unchecked items. |
| Dashboard.Ranked | src/components/Dashboard.jsx:176-181 | The ranked list is a permutation of the unchecked items with priority ranks never increasing. Items of equal rank keep their syllabus order, since the sort is stable. |
| Dashboard.RankedDescending | src/components/Dashboard.jsx:177 | A list sorted by the rank key has non-increasing priority ranks (high = 3, medium = 2, normal = 1). |
| Dashboard.RankedUnchecked | src/components/Dashboard.jsx:172-181 | Every ranked item is unchecked. |
| Dashboard.OfSubjectConcat | src/components/Dashboard.jsx:183-190 | The suggestions of one subject in a concatenation are those of each part, in order. |
| Dashboard.OfSubjectAt | src/components/Dashboard.jsx:187-189 | One push adds the subject's i-th item to that subject's suggestions when the item exists, and nothing to the other subjects. |
| Dashboard.SlotOfSubject | src/components/Dashboard.jsx:186-190 | One pass of the loop contributes each subject's i-th item, when it exists. |
| Dashboard.InterleaveOfSubject | src/components/Dashboard.jsx:183-190 | The loop yields, for each subject, exactly its first two ranked items, in rank order. |
| Dashboard.InterleaveItems | src/components/Dashboard.jsx:183-190 | At most six suggestions, none of them checked. |
| Dashboard.Suggestions | src/components/Dashboard.jsx:164-192 | The suggestions are slot 0 then slot 1, each slot holding History's, Geography's and Mathematics' item of that rank when it exists. At most six, all unchecked, and the suggestions of each subject are exactly its first two unchecked items by priority. |
| Dashboard.SuggestionsOrder | src/components/Dashboard.jsx:183-190 | Each suggestion is its subject's ranked item for the slot it fills, and that slot is 0 or 1. Every first-slot suggestion comes before every second-slot one, and within a slot History precedes Geography and Geography precedes Mathematics. |
| Dashboard.SaveNote | src/components/Dashboard.jsx:14-25 | A blank draft (only whitespace, as `trim` sees it) changes nothing. Otherwise the new note goes in front, the others follow in order, and the draft is cleared. |
| Dashboard.ShowAlert | src/components/Dashboard.jsx:100-107 | The alert shows exactly when a last activity is recorded and at least three whole days have passed since it. |
| Readings.GetStatus | src/components/Readings.jsx:76 | A book without a stored status, or with an empty one, reads as "unread"; otherwise it reads as its stored status. |
| Readings.ReadCount | src/components/Readings.jsx:82-85 | The count is at most the number of books. It is 0 exactly when no book is read or summarized, and all of them exactly when every book is. |
| Readings.ReadingProgress | src/components/Readings.jsx:87 | With books, the ring shows the rounded percentage read, within 0..100. With none there is no number. |
| Readings.HandleStatusChange | src/components/Readings.jsx:78-80 | The chosen book shows its new status, and every other book's status is unchanged. |
| Readings.MarkingReadCountsOnce | src/components/Readings.jsx:82-85 | Marking an unread book (listed once) as read raises the read count by exactly one. |
| Readings.SameReadCountWithout | src/components/Readings.jsx:82-85 | Marking a book that is not listed leaves the read count unchanged. |
| Sync.FetchEffect | src/hooks/useSupabaseData.js:10-28 | With no user, the state is untouched. With one, loading ends; an error keeps the old value, and a response replaces it with the converted rows. |
| Sync.SyllabusFromRows | src/hooks/useSupabaseData.js:20-22 | The fetched checklist has exactly the fetched item ids as keys, all checked. |
| Sync.ToggleItem | src/hooks/useSupabaseData.js:30-50 | The item flips locally. The write for that item is a delete exactly when it was checked before, that is, when it is unchecked now; otherwise it is an insert. |
| Sync.BooksFromRows | src/hooks/useSupabaseData.js:70-71 | Every fetched book id is a key and nothing else is. The last row of a repeated id decides its status. |
| Sync.UpdateStatus | src/hooks/useSupabaseData.js:80-81 | Only the given book takes the new status; every other status is unchanged. |
| Sync.AddSimulado | src/hooks/useSupabaseData.js:115-123 | On error the list is unchanged. On success the new entry joins the list, which becomes sorted by date, and entries of equal date keep their order. |
| Sync.DeleteSimulado | src/hooks/useSupabaseData.js:125-126 | Exactly the entries with the id go; the count drops by their number. |
| Sync.DeleteSimuladoKeepsOrder | src/hooks/useSupabaseData.js:125-126 | Deleting distributes over concatenation, and a single entry stays exactly when its id differs, so the entries that stay keep their order and are not copied. |
| Sync.AddNote | src/hooks/useSupabaseData.js:159-167 | On error the notes are unchanged. On success the new note goes in front of the old list. |
| Sync.DeleteNote | src/hooks/useSupabaseData.js:169-170 | Exactly the notes with the id go; every other note stays. |
| Sync.DeleteNoteKeepsOrder | src/components/Dashboard.jsx:27-29 | Deleting distributes over concatenation, and a single note stays exactly when its id differs, so the notes that stay keep their relative order. |
| Sorting.SortBy | tools/questions/complete_2021.py:70 | The result is sorted and a permutation of the input. For each key, the elements with that key keep their input order (a stable sort). |
| Sorting.Insert | tools/questions/complete_2021.py:70 | Inserting into a sorted list keeps it sorted, adds exactly the new element, and puts it behind the elements with the same key. |
| Seqs.LastWins | tools/questions/ingest.py:163-165 | Every key of the pairs is in the map and nothing else is. The last pair with a key decides its value. |
| Questions.PlaceholderOptions | tools/questions/complete_2021.py:48-54 | Five options with keys A to E, in order, all holding the placeholder text. |
| Questions.QuestionIdEndsInNumber | tools/questions/complete_2021.py:44 | The id `fuvest-{year}-q{NN}` ends in digits that spell the question number back. |
| Questions.SortByNumber | tools/questions/complete_2021.py:70 | A stable sort by number: sorted, a permutation of the input, and the records sharing a number keep their input order. |
| Questions.SortedNumbers | tools/questions/fix_2015.py:210 | A list sorted by the number key has non-decreasing numbers. |
| Questions.Numbers | tools/questions/complete_2021.py:11 | The set of numbers is exactly the numbers the questions carry. |
| Questions.MissingNumbers | tools/questions/complete_2021.py:12 | The missing list is exactly the numbers 1..90 not present, strictly ascending. |
| Questions.Range | tools/questions/complete_2021.py:12 | The numbers 1..n, a set of n elements. |
| Questions.NumbersSize | tools/questions/qa_gate.py:79-85 | A list has at most as many distinct numbers as entries. |
| Questions.NumbersSizeShared | tools/questions/qa_gate.py:79-85 | Two entries sharing a number leave fewer distinct numbers than entries. |
| Questions.CoveringMeansEachOnce | tools/questions/qa_gate.py:72-85 | A list of n questions carrying every number 1..n carries each exactly once and no other number. |
| Questions.Extend | tools/questions/complete_missing.py:224-231 | The result is sorted by number and is, as a multiset, the existing records plus the recovered ones. Each added record is the one recovered for a missing number, and every recovered record is present. Records that share a number keep their order, the existing ones before the recovered ones. |
| Questions.Replace | tools/questions/fix_2015.py:137-140 | The result is sorted by number, and as a multiset it is exactly the records whose number is not in the bad list plus the rebuilt records. Its length is their two counts added. Records that share a number keep their order, the surviving ones before the rebuilt ones. |
| Questions.AnswerKey | tools/questions/complete_missing.py:155-164 | An unreadable or absent key gives the empty map. Otherwise every matched number is a key and nothing else is, and the last match of a number decides its letter. `fix_2015.py` (lines 147-151) matches the same pattern; `ingest.py` (lines 163-165) matches a looser one but fills its map from the matches by the same rule. |
| Questions.Cleaned | tools/questions/complete_missing.py:198-199 | When the stem starts with a number prefix ending at k, the result is the stripped text from k on; with no such prefix it is the stripped stem. Either way it is a contiguous piece of the original that neither starts nor ends with whitespace. |
| Questions.KeepStem | tools/questions/complete_missing.py:198-200 | The kept stem is the placeholder when the cleaned text is too short or rejected. Otherwise it is exactly the cleaned text cut to 2000 characters, at least the minimum long. |
| Text.PrefixEnd | tools/questions/ocr.py:119 | The pattern `^\s*\d{1,2}\s*[.\)]\s*` matches at most one prefix: the position found is its end, and whenever a prefix of the pattern's shape ends at k, k is the position found. |
| Text.StripNumberPrefix | tools/questions/ocr.py:119 | When the text starts with a match of the number pattern (whitespace, one or two digits not followed by a third, whitespace, `.` or `)`, whitespace) ending at k, the result is the text from k on; when no prefix matches, the text is unchanged. A text that starts with neither whitespace nor a digit is untouched. |
| Text.StripNumberPrefixRemovesNumber | tools/questions/ocr.py:119 | A one- or two-digit number followed by `. ` is removed, and the text behind it is kept whole. |
| Text.StripBy | tools/questions/qa_gate.py:23 | `strip()` removes a whitespace prefix and a whitespace suffix, and nothing else. It gives nothing exactly when the text is all whitespace. |
| Text.BlankIffTrimEmpty | src/components/Dashboard.jsx:15 | A draft is blank exactly when `trim()` leaves nothing. |
| Markers.ParseMarker | tools/questions/complete_missing.py:36 | A parsed token is spelled by the marker grammar (optional `{`, one or two digits, optional `}`, optional `.` or `)`), and the result is the number its digits spell. |
| Markers.ParseSpelled | tools/questions/complete_missing.py:36 | Every spelling the grammar allows parses back to its number. |
| Markers.Recognize | tools/questions/complete_missing.py:41-48 | A word is a marker exactly when, once stripped, it is non-empty, at most 4 characters long, matches the grammar, and names a number in 1..90. |
| Markers.WordMarkers | tools/questions/complete_missing.py:29-50 | Every marker comes from a recognised word, keeping its box, and every recognised word yields its marker. |
| Markers.WordMarkersInOrder | tools/questions/complete_missing.py:37-50 | The markers come in word order: those of a concatenation of word lists are those of the first list followed by those of the second. |
| Markers.MarkerNumbersInRange | tools/questions/complete_missing.py:47 | Every marker a page yields carries a number in 1..90. |
| Markers.DetectMarkers | tools/questions/fix_2015.py:21-47 | With the cover test on, a cover page yields no markers. Every other page yields the markers of its recognised words. |
| Markers.CoverNeverHoldsQuestion | tools/questions/fix_2015.py:29-31 | With covers skipped, a page that holds a question's marker is not a cover. On a page that is not a cover, skipping changes nothing. |
| Markers.ColumnEnd | tools/questions/complete_missing.py:67-75 | The end is no lower than any same-column marker strictly below the start. It is the page bottom or the top of one such marker. |
| Markers.QuestionBox | tools/questions/complete_missing.py:78-87 | The padded rectangle lies on the page and starts 8 points above the marker, clamped at 0. A left-column marker spans x from 0 to min(width, width/2 + 8); a right-column one from max(0, width/2 - 8) to the width. The pixel box is `int()` of each rectangle coordinate or extent times the scale, each extent at least 1. |
| Markers.QuestionEndsAtNextMarker | tools/questions/complete_missing.py:67-80 | The question ends, before padding, at the nearest same-column marker strictly below its start, or at the page bottom when there is none. |
| Markers.Trunc | tools/questions/complete_missing.py:82-87 | `int()` of a non-negative coordinate is its floor. |
| Markers.FirstMarker | tools/questions/complete_missing.py:64-65 | The first marker with the number is chosen; none exactly when the page has no such marker. |
| Markers.FindQuestion | tools/questions/complete_missing.py:56-91 | The search returns the first page, from the starting index, that holds the number, as a 1-based page whose box fits the page. It returns none exactly when no page from there holds it. |
| Markers.FindInDocument | tools/questions/complete_missing.py:52-91 | Every page is searched, covers included. A found question lies on a page, 1-based, that holds its marker. |
| Markers.FindSkippingCover | tools/questions/fix_2015.py:49-87 | The search starts at page index `start_page - 1` and ignores cover pages. The page it returns is 1-based and at least `start_page`. It returns none exactly when no later non-cover page holds the number. |
| Markers.CropRect | tools/questions/complete_missing.py:113-116 | The crop starts at non-negative coordinates and ends inside the image. It covers the padded box as far as the image allows, and is no larger than the padded box. |
| Ocr.Letter | tools/questions/ocr.py:104 | The five option letters are letters and pairwise distinct. |
| Ocr.KeysAreLetters | tools/questions/ocr.py:98 | `key in 'ABCDE'` for one-letter keys holds exactly for A to E. |
| Ocr.Clean | tools/questions/ocr.py:99 | A stored option text is a prefix of the stripped match text: all of it when it has at most 500 characters, otherwise its first 500. |
| Ocr.Record | tools/questions/ocr.py:96-99 | Every lettered match writes its letter. Every value either was there before or is the cleaned text of a match with that letter. |
| Ocr.RecordKeepsUntouched | tools/questions/ocr.py:96-99 | A letter no match writes keeps its old text. |
| Ocr.RecordLastWriteWins | tools/questions/ocr.py:96-99 | The last match with a given letter decides that letter's text. |
| Ocr.GatheringSpec | tools/questions/ocr.py:93-101 | The gathered map holds only letters, each with the cleaned text of a match of that letter from a pattern that had three matches or more. Every such text comes from a pattern the loop consulted before it stopped. Every letter of every such pattern the loop consulted is a key, and the loop stops before the last pattern only with three keys or more. |
| Ocr.FirstFullPatternStops | tools/questions/ocr.py:100-101 | When the first pattern has three matches or more and leaves three letters or more, the gathered map is exactly what that pattern wrote and only that pattern is consulted. |
| Ocr.Fill | tools/questions/ocr.py:104-106 | Exactly the five letters are keys. Gathered letters keep their text and the others hold the placeholder. |
| Ocr.ParseAlternatives | tools/questions/ocr.py:75-108 | Empty text gives none. Otherwise the result is none exactly when every gathered value is the placeholder. A result has exactly the keys A to E. Each holds the placeholder or the cleaned text, at most 500 characters, of a match of that same letter from a pattern with three matches or more, and agrees with the gathered map. |
| Ocr.PlaceholderKeys | tools/questions/complete_missing.py:186 | The placeholder options carry the letters A to E as keys, in order. |
| Ocr.OptionsFrom | tools/questions/complete_missing.py:194 | The option list has five entries, A to E in order, each with the parsed text of its letter. |
| Ocr.FirstAltStart | tools/questions/ocr.py:122 | The search finds the leftmost position where the option pattern matches, or the end when there is none. |
| Ocr.ExtractStem | tools/questions/ocr.py:110-126 | Empty text gives "". Otherwise the stem is the stripped text, after the number prefix, before the first place where an option list starts. |
| Ocr.StemEndsBeforeOptions | tools/questions/ocr.py:110-126 | A one-line stem followed by an option spelled `(X) …` comes back as the stripped stem alone. |
| CompleteMissing.CropQuestion | tools/questions/complete_missing.py:100-129 | The page's own image is used, or the next page's when that one is absent. There is no crop when neither exists or saving fails. A crop lies inside its image. |
| CompleteMissing.ReadQuestion | tools/questions/complete_missing.py:185-194 | Five options keyed A to E. When OCR reads no more than the PDF text, the PDF text is kept with placeholder options. Otherwise the OCR stem is used when non-empty, and the parsed options when any were read; when none were read the options are the placeholders. |
| CompleteMissing.CleanStem | tools/questions/complete_missing.py:198-200 | A cleaned text under 10 characters becomes the placeholder. Otherwise the result is exactly the cleaned text, number prefix removed and stripped, cut to 2000 characters: a piece of the original stem at least 10 characters long. |
| CompleteMissing.CleanStemDropsNumber | tools/questions/complete_missing.py:198-200 | A stem written `NN. text` keeps its text whole, cut to 2000 characters. |
| CompleteMissing.Recover | tools/questions/complete_missing.py:169-222 | A record exists exactly when the number's marker is found in the PDF. It carries the id `fuvest-{year}-q{NN}`, the page and box of the found marker, the keyed answer or A, and the pending explanation. It has an image exactly when the crop was saved. Its stem is the cleaned longer of the PDF and OCR texts, and its five options are the ones read from that text. |
| CompleteMissing.Complete | tools/questions/complete_missing.py:131-238 | A missing file, or one lacking no number, is left alone. Otherwise the new list is sorted by number and is, as a multiset, the old records plus the records recovered for the missing numbers. `added` is the number of those records. Records that share a number keep their order, the old ones before the recovered ones. |
| CompleteMissing.AddedRecordsAreFound | tools/questions/complete_missing.py:169-174 | A record that was not in the file carries a number in 1..90 it lacked, found in the PDF, with its id, year, page and pending explanation. |
| Fix2015.FixStem | tools/questions/fix_2015.py:178-180 | The stem becomes the placeholder when the cleaned text is under 20 characters or mentions "DURANTE A PROVA". Otherwise it is exactly the cleaned text cut to 2000 characters, a piece of the original. |
| Fix2015.Record | tools/questions/fix_2015.py:170-202 | A rebuilt record has the number, year and id, the found page and box, five placeholder options, the keyed answer or A, the pending explanation and the image path. Its stem is the stripped text clipped from the marker's rectangle, cleaned and cut as `FixStem` promises. |
| Fix2015.Rebuild | tools/questions/fix_2015.py:158-166 | A question is rebuilt exactly when its marker is found on a non-cover page from page 2 on. |
| Fix2015.Fix | tools/questions/fix_2015.py:137-210 | The result is sorted by number. As a multiset it is exactly the questions other than 6-9 and 14-17 plus the records rebuilt for those eight numbers, and its length is the two counts added. Records that share a number keep their order, the kept questions before the rebuilt ones. |
| Fix2015.FixedQuestionsAreRebuilt | tools/questions/fix_2015.py:183-202 | A question of the repaired list with one of the eight numbers comes from a page from 2 on. It has placeholder options A to E, the keyed answer or A, and the pending explanation. |
| Complete2021.Complete | tools/questions/complete_2021.py:66-70 | The result is sorted by number and keeps every existing record. It grows by exactly the number of missing numbers. |
| Complete2021.AddedArePlaceholders | tools/questions/complete_2021.py:38-64 | Every added record is the placeholder record of a number in 1..90 the file lacked: placeholder stem and options, the table's answer, the pending explanation. |
| Complete2021.LackedNumbersAreFilled | tools/questions/complete_2021.py:40-67 | Every number in 1..90 that the file lacked gets its placeholder record. |
| Complete2021.CompleteCovers | tools/questions/complete_2021.py:67-70 | After the script, every number in 1..90 is present. |
| Complete2021.PresentPlusMissing | tools/questions/complete_2021.py:11-12 | Distinct numbers within 1..90 and the numbers they lack add up to 90. |
| Complete2021.CompletedPassesGate | tools/questions/complete_2021.py:67-70 | A file whose numbers are distinct and within 1..90 passes the publication gate once the script has run. |
| Ingest.CropAsset | tools/questions/ingest.py:122-154 | A question with a falsy number, no box, or a page outside the rendered pages gets no crop. A crop comes from its own page image, lies inside it, and was saved. |
| Ingest.AssetOf | tools/questions/ingest.py:129-152 | The asset is the question's own image path exactly when its crop was saved, and the holder image otherwise. |
| Ingest.HolderIsNoAssetPath | tools/questions/ingest.py:148 | No question's own image path is the holder's. |
| Ingest.PageItems | tools/questions/ingest.py:177-182 | The questions read from page image i are tagged with page i + 1, all of them and nothing else. |
| Ingest.Paged | tools/questions/ingest.py:176-182 | Every collected question was read from one of the pages and carries that page's 1-based number. Every question read is collected. |
| Ingest.Build | tools/questions/ingest.py:190-199 | A kept question gets its id, year, the key's answer (absent when the key has none), the pending theory and its asset path. |
| Ingest.BuildAll | tools/questions/ingest.py:189-199 | Every kept question gets its record, in order. |
| Ingest.Ingest | tools/questions/ingest.py:168-206 | No rendered pages stops the run. Otherwise there is one record per numbered question, in page order, each built from it. |
| Ingest.NumberedQuestionsAreKept | tools/questions/ingest.py:190-199 | Every question with a number read from any page has its record in the output. |
| Enrich.Attempts | tools/questions/enrich.py:148-160 | Every pending question is attempted, or at most `limit` of them when the limit is positive. |
| Enrich.Sweep | tools/questions/enrich.py:146-160 | The loop attempts, in order, exactly the pending questions before where it stops. It stops early only when a positive limit is reached. Attempted questions take the returned explanation when one comes back; the rest are unchanged. It counts the successes. |
| Enrich.Run | tools/questions/enrich.py:146-166 | The k-th pending question is attempted exactly when k is below the attempted count. An attempted question takes a returned explanation, and every other question is unchanged. The file is written exactly when at least one attempt succeeded. |
| Enrich.SweepAttempts | tools/questions/enrich.py:156-160 | Where the loop stops, it has attempted as many questions as the limit rule allows. |
| Enrich.SweepOutcome | tools/questions/enrich.py:150-154 | Each question's outcome depends only on whether it is pending and how many pending ones precede it. |
| Audit.PixelCount | tools/questions/audit_crops.py:13-14 | An image whose rows are all `width` wide has width times height pixels. |
| Audit.WhiteRatio | tools/questions/audit_crops.py:7-18 | No pixels gives 1. Otherwise the ratio is the share of pixels at or above 245, a fraction in [0, 1]. It is 1 exactly when all pixels are white, and 0 exactly when none is. |
| Audit.ContentBox | tools/questions/audit_crops.py:28-29 | There is no box exactly when no pixel is below 245. Otherwise the box holds every such pixel, and each of its edges touches one. |
| Audit.BoxFromSpec | tools/questions/audit_crops.py:28-29 | The row-by-row box is absent exactly when the rows hold no content, and otherwise encloses it tightly. |
| Audit.ContentRatio | tools/questions/audit_crops.py:21-35 | With a content box, the ratio is the box's area over the image's width times height, each at least 1. The denominator is at least 1, and the ratio is 0 exactly when the image has no content. |
| Audit.ContentRatioAtMostOne | tools/questions/audit_crops.py:33-35 | For an image whose rows are as wide as the image, the content share is at most 1. |
| Audit.LstripSlash | tools/questions/audit_crops.py:49 | `lstrip("/")` removes exactly the leading slashes. |
| Audit.Measure | tools/questions/audit_crops.py:61-79 | The row records size and area. It is white-flagged exactly when the white share reaches the threshold, and small-flagged exactly when the area is at most the minimum. |
| Audit.AllWhiteIsFlagged | tools/questions/audit_crops.py:76 | An empty or all-white image is white-flagged under any threshold of at most 1. |
| Audit.NoWhiteIsNotFlagged | tools/questions/audit_crops.py:76 | An image with no white pixel is never white-flagged under a positive threshold. |
| Audit.RowFor | tools/questions/audit_crops.py:47-79 | A question without an image path gives no row. A missing file gives a row marked missing. Otherwise the row measures the image. |
| Audit.AuditKeyIsTupleOrder | tools/questions/audit_crops.py:90 | The packed sort key orders rows exactly as Python's tuple `(flag_white is False, flag_small is False, missing is False, number)` does, with `False < True`. |
| Audit.Audit | tools/questions/audit_crops.py:46-91 | One row per question with an image path, as a permutation of those rows, sorted by the report key, with rows of equal key kept in question order. `flagged` counts the rows with any flag or a missing file. |
| Audit.FlaggedFirst | tools/questions/audit_crops.py:89-90 | A flagged row never follows an unflagged one. |
| Audit.MissingFirst | tools/questions/audit_crops.py:90 | Missing-file rows come first. Since they carry no `flag_white`, they sort ahead of every measured row. |
| Audit.WhiteFlaggedFirst | tools/questions/audit_crops.py:90 | A white-flagged row is preceded only by missing or white-flagged rows. |
| Audit.SameFlagsByNumber | tools/questions/audit_crops.py:90 | Rows with the same flags are in ascending order of question number. |
| QaGate.Collapse | tools/questions/qa_gate.py:27 | Every run of whitespace becomes one plain space, and nothing else changes. The result never holds two spaces in a row, and is empty exactly when the input is. |
| QaGate.CollapseIdempotent | tools/questions/qa_gate.py:27 | Collapsing twice is collapsing once. |
| QaGate.CollapseConcat | tools/questions/qa_gate.py:27 | Collapsing distributes over a cut after a non-space character. |
| QaGate.CollapseKeepsChar | tools/questions/qa_gate.py:27 | A leading non-space character passes through unchanged. |
| QaGate.CollapseRun | tools/questions/qa_gate.py:27 | A leading run of whitespace becomes exactly one space before the rest. |
| QaGate.CollapseKeepsText | tools/questions/qa_gate.py:27 | The non-space characters of the result are those of the input, in the same order: collapsing only rewrites whitespace. |
| QaGate.Norm | tools/questions/qa_gate.py:22-28 | The normal form has no combining mark and no whitespace other than single plain spaces. Blank text gives "". |
| QaGate.PlaceholderRecognised | tools/questions/qa_gate.py:31-36 | The placeholder text the tools write, "(Veja a imagem da questão)", is recognised as a placeholder for any Unicode tables that agree with ASCII on ASCII. |
| QaGate.NormAsciiHead | tools/questions/qa_gate.py:22-28 | Normalising a text that starts with collapsed ASCII yields that start, lower-cased, followed by the rest's normal form. |
| QaGate.StemPlaceholders | tools/questions/qa_gate.py:116-119 | The placeholder stems are at most the questions. |
| QaGate.Absent90 | tools/questions/qa_gate.py:79-85 | The missing numbers are exactly those in 1..90 that no question carries. The list is empty exactly when all are present. |
| QaGate.MissingAssets | tools/questions/qa_gate.py:87-98 | Every question without an image on disk is listed, and the list is as long as the number of such questions. The list is empty exactly when every image exists. |
| QaGate.MissingAssetsListed | tools/questions/qa_gate.py:87-98 | Every listed number belongs to a question whose image is not on disk. |
| QaGate.MissingAssetsInOrder | tools/questions/qa_gate.py:87-98 | Listing distributes over concatenation and a single question is listed exactly when its image is missing, so the list follows file order. |
| QaGate.QualityWarnings | tools/questions/qa_gate.py:126-158 | The stem warning fires exactly when `2 * placeholders > max(1, n)`, and likewise the option warning. The box warning fires exactly when at least 5 boxes have height in 1..299. The enrichment warning fires exactly when fewer than all questions are enriched. |
| QaGate.Verdict | tools/questions/qa_gate.py:72-85 | The year passes exactly when it has 90 questions and every number in 1..90 is present, which is exactly when neither count error is recorded. |
| QaGate.Inspect | tools/questions/qa_gate.py:72-160 | Passing depends only on the count and the numbers present. Every other finding is a warning, with its own exact trigger. |
| QaGate.CheckYear | tools/questions/qa_gate.py:38-160 | A missing or unreadable file fails at once with one error and no warnings. A readable one passes exactly when it has 90 questions with every number present. |
| QaGate.PassedMeansEachNumberOnce | tools/questions/qa_gate.py:72-85 | A passing year holds each number 1..90 exactly once and no other number. |
| QaGate.Years | tools/questions/qa_gate.py:205-219 | A non-zero `--year` selects that year. Otherwise `--all` selects every available year in ascending order, and with neither there is no selection (the usage message). |
| QaGate.Run | tools/questions/qa_gate.py:221-235 | One report per selected year, in order. The exit code is 0 exactly when a selection was made and every year passed, and 1 otherwise. |

## Left out

- PDF rendering and text extraction, image files, OCR, and the vision and language model calls (with their SHA-256 cache): their results are parameters.
- Supabase queries, authentication and the error logging of the hooks: the response, or its absence on error, is a parameter.
- Screens, charts, `localStorage`, printing and report or CSV writing.
- `validate.py`, `render_pages.py`, `copy_pages.py`, `fix_2021_bboxes.py`, `recrop_missing.py` and the diagnostic scripts are not part of this model.
- Quiz.Shuffle: the random comparator is replaced by a sequence of draws, so the contract states only that the result is a permutation.
- Percent.RoundPercent: floating-point rounding error is not modelled. The exact rational percentage is rounded, halves up, as `Math.round` does.
- Readings.ReadingProgress: the `NaN` that the source shows with no books is the value `None`.
- QaGate.Norm: does not state that the result is lower-case, because lower-casing and NFKD decomposition come from Unicode tables given as parameters. The ASCII case is proved in `QaGate.PlaceholderRecognised`.
- QaGate.Inspect: the rounded percentages `round(pct, 1)` in the report and the wording of the messages are not modelled. The integer comparisons that decide the warnings are.
- QaGate.Years: reading the year from `fuvest-YYYY.json` file names is not modelled; the list of available years is a parameter.
- Fix2015.FixedQuestionsAreRebuilt: does not restate that the page is not a cover. That fact is `Markers.CoverNeverHoldsQuestion` together with the found-page clause of `Markers.FindSkippingCover`.
- Syllabus.GetTheme: a name that JavaScript objects inherit, such as `constructor`, would give that inherited member rather than violet. Every call site passes one of the table's own names, so the model treats every other name as unknown.
- Fix2015.Record: the rendering of the rebuilt crop and its saving are not modelled; the record carries the image path the script writes.
- Text.IsDigit: `\d` is taken as the ASCII digits 0-9. Python's `\d` on `str` also matches every other Unicode decimal digit (category Nd), which the model does not recognise.
- Questions.AnswerKey: the regular expressions that find `(number, letter)` pairs in the key PDF are not modelled; their matches are a parameter, so the looser pattern of `ingest.py` is not distinguished from the other two.
- Sync.AddSimulado: the exam date is an integer time stamp, compared as a number; parsing date strings is not modelled.
- Markers.QuestionBox: coordinates are exact reals. Float rounding, and the conversion of the marker rectangle into PyMuPDF's clip object, are not modelled.
- Audit.WhiteRatio: the gray conversion is an input, and the ratio stays an exact fraction. The `round(…, 4)` in the report is not modelled.
- Audit.Audit: the `year` and `path` columns and the output files are not modelled.
- Dashboard.ShowAlert: `differenceInDays` is modelled as whole days of 86 400 000 ms, truncated toward zero. Calendar and daylight-saving effects are not modelled.
- Dashboard.ShowAlert: the last activity is the ISO-8601 string that Syllabus.HandleToggle stores, read back with `new Date(...)`. Formatting and parsing that string are not modelled; ShowAlert takes its millisecond value, so the two members are not connected by a lemma.
- Enrich.Run: the model call and its cache are a parameter that returns an explanation or nothing. An empty object, which Python treats as false, counts as nothing.
- Ingest.Ingest: the page images, the extracted questions and the answer-key matches are parameters. The `generatedAt` time stamp is not modelled.
- The explanation's `steps`, `distractors` and `finalSummary` fields are carried only as far as the records need them; only `theory` drives any decision.
