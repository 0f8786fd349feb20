# readcn.fun: a verified model of its quiz sessions

readcn.fun is a small React app for learning Chinese words. It has two quiz modes over one word
catalogue:

- **Read mode** (`src/App.tsx`) shows a word and three English captions. The learner picks the
  matching one.
- **Write mode** (`src/apps/write/WriteApp.tsx`) has the learner draw each character of a word,
  stroke by stroke, in the HanziWriter widget.

Both modes deal words from a *deck*. A deck is a shuffled stack of word ids, popped from its end.
When it runs out it is rebuilt, and the rebuild never starts with the word just shown. Both
modes also keep counters: correct answers, mistakes, the current streak and the best streak. A
streak that reaches a multiple of 10 is celebrated once.

The model is split into these modules:

| Module | File | Contents |
|---|---|---|
| `Seqs` | `seqs.dfy` | `Option`, reversal and distinctness of sequences |
| `Words` | `words.dfy` | The catalogue of `src/data/words.ts`: the six unit tables, `uniqueById` (as the loop `UniqueById` and its specification `UniqueWords`), the per-unit unions and `WORDS` |
| `Scoring` | `scoring.dfy` | The four counters as a `Tally`, the streak rule, and the milestone test |
| `Deck` | `deck.dfy` | `makeDeck`, shared by both modes: a copy of the shuffled ids with the anti-repeat swap done in place |
| `ReadMode` | `read_mode.dfy` | `buildQuestion`, and the class `ReadSession` holding the state and refs of `App` |
| `WriteRules` | `write_rules.dfy` | The pure rules of Write mode, described below |
| `WriteMode` | `write_mode.dfy` | The class `WriteSession` holding the state and refs of `WriteApp` |

`WriteRules` holds: `clamp`, `firstHanziCharacter`, the stroke-count fallback, the unit toggle,
auto-unlock, the celebration bursts, what a finished character leads to, and the deck scan of
`nextWord`.

In `WriteSession`:

- Each event handler is a method: `toggleUnit`, `start`, `nextWord`, `skipStroke`, `resetWord`,
  and the widget's `onMistake`, `onCorrectStroke` and `onComplete`.
- Each React effect that matters is a method the environment calls after a render that changed
  its dependencies.
- The single `nextTimeoutRef` timer is the field `pending`. Its callback is the method
  `TimerFires`.

Randomness is passed in as arguments that satisfy the contract of the random helpers:

- The shuffled copy of the ids is any rearrangement of them: `multiset(shuffled) == multiset(ids)`.
- The two distractors are two different positions among the words other than the target.
- The order of the three options is a permutation of `0, 1, 2`.

Write mode avoids dealing a word whose first character equals the last character completed:
the character on screen when `nextWord` runs. For a word of several characters that is its last
character, not its first.

## Model

| member | source | states |
|---|---|---|
| `Words.ReadWordsByUnit` | src/data/words.ts:104-108 | Each unit's read list begins with that unit's write list. |
| `Words.WriteWordsByUnit` | src/data/words.ts:110-114 | No unit's write list is empty. |
| `Words.WordById` | src/apps/write/WriteApp.tsx:145-147 | The lookup by id finds a word exactly when the id occurs, and that word carries the id. |
| `Words.UniqueById` | src/data/words.ts:116-125 | The loop with its `seen` set computes `UniqueWords`: the ids are pairwise distinct and every input id is kept. |
| `Words.UniqueIds` | src/data/words.ts:116-125 | The deduplicated list has exactly the input's ids, each once. |
| `Words.UniqueIsSubsequence` | src/data/words.ts:116-125 | The deduplicated list is a subsequence of the input. |
| `Words.UniqueKeepsFirst` | src/data/words.ts:116-125 | A word is kept if and only if it is the first occurrence of its id in the input. |
| `Words.UniqueOfDistinct` | src/data/words.ts:116-125 | On a list whose ids are already distinct, deduplication changes nothing. |
| `Words.UniqueIdempotent` | src/data/words.ts:116-125 | Deduplicating twice gives the same list as deduplicating once. |
| `Words.UniqueAtLeastThree` | src/data/words.ts:116-125 | A list with at least three distinct ids keeps at least three words, with distinct ids. |
| `Words.WriteFlatWithinRead` | src/data/words.ts:104-114 | For any units, the ids of the concatenated write lists are among those of the concatenated read lists. |
| `Words.WriteIdsWithinRead` | src/data/words.ts:127-133 | `getWriteWordsForUnits(units)` has only ids that `getReadWordsForUnits(units)` has. |
| `Words.WordsForUnitsNonEmpty` | src/data/words.ts:127-133 | A non-empty unit selection over non-empty lists gives a non-empty word list. |
| `Words.WordsForUnits` | src/data/words.ts:127-133 | The selected units' lists, concatenated in order and deduplicated: a subsequence of the concatenation, with distinct ids, holding exactly the ids of the selected units' lists. |
| `Words.ReadWordsForUnits` | src/data/words.ts:127-129 | `getReadWordsForUnits(units)` has distinct ids, and its ids are exactly those of the selected units' read lists. |
| `Words.WriteWordsForUnits` | src/data/words.ts:131-133 | `getWriteWordsForUnits(units)` has distinct ids, and its ids are exactly those of the selected units' write lists. |
| `Words.WriteWordsNonEmpty` | src/data/words.ts:131-133 | Any non-empty unit selection gives Write mode at least one word. |
| `Words.AllWordsCatalogue` | src/data/words.ts:135-139 | `WORDS` is the read words of units 1 to 3. It holds each of their ids exactly once, and at least three words. |
| `Words.AllWordsReadUnion` | src/data/words.ts:135-139 | `WORDS` equals `getReadWordsForUnits` of all three units. |
| `Scoring.Advance` | src/App.tsx:153-157 | A clean answer extends the streak by one and a flawed one resets it to 0. The best streak becomes the larger of the old best and the new streak. The answer and mistake counters are untouched. |
| `Scoring.AdvanceConsistent` | src/App.tsx:142-167 | A streak step keeps the best streak at or above the streak and never lowers it. |
| `Scoring.BestIsRunningMax` | src/App.tsx:142-167 | After any run of outcomes, the best streak is the larger of its start value and the highest streak reached. |
| `Scoring.StreakIsCleanRun` | src/App.tsx:142-167 | After a run of outcomes, the streak counts the trailing clean ones, on top of the starting streak if every outcome was clean. |
| `Scoring.FreshBestIsMax` | src/App.tsx:115-167 | From fresh counters, the best streak is the highest streak reached. |
| `Deck.Dealt` | src/App.tsx:55-64 | The dealt deck has the same length and the same multiset of ids as the shuffle. |
| `Deck.DealtKeepsPrefix` | src/apps/write/WriteApp.tsx:120-122 | The anti-repeat swap moves only the last two entries. |
| `Deck.DealtAvoidsRepeat` | src/apps/write/WriteApp.tsx:120-122 | With at least two distinct ids and a previous word, the first id popped is never the previous word. |
| `Deck.MakeDeck` | src/apps/write/WriteApp.tsx:116-125 | Copying the shuffle into an array and swapping in place gives `Dealt`. |
| `ReadMode.Without` | src/App.tsx:43-53 | The candidates are exactly the catalogue words with a different id, and nothing is removed when the id is absent. |
| `ReadMode.WithoutDistinct` | src/App.tsx:43-53 | Over a catalogue with distinct ids, the candidates have distinct ids and are one word fewer when the target is present. |
| `ReadMode.Arrange` | src/App.tsx:43-53 | Shuffling three options gives three options, each the one its order index names, and none is lost. |
| `ReadMode.BuildQuestion` | src/App.tsx:43-53 | The question is for the word given. It is well formed: three options with distinct ids, exactly one the target, whose id is the correct option id. Every option captions its own catalogue word. |
| `ReadMode.QuestionWellFormed` | src/App.tsx:43-53 | The target plus two distractors from the catalogue, different from each other and from the target, form a well-formed question in any order. |
| `ReadMode.OptionIdsOnce` | src/App.tsx:43-53 | The option ids are distinct and include the target id, in any order. |
| `ReadMode.OptionsLookUp` | src/App.tsx:43-53 | Each option's id names a catalogue word whose English gloss is the option's caption. |
| `ReadMode.DealtFromCatalogue` | src/App.tsx:55-64 | A deck dealt from the `WORDS` ids has one entry per word, all of them catalogue ids. |
| `ReadMode.AfterChoice` | src/App.tsx:149-167 | A correct pick adds one correct answer and extends the streak. A wrong pick adds one mistake and resets the streak to 0. The best streak becomes the larger of the old best and the new streak. |
| `ReadMode.ChoicesScore` | src/App.tsx:138-168 | Over a run of picks, the correct count grows by the correct picks and the mistake count by the wrong ones. Streak and best streak follow the streak rule. |
| `ReadMode.ReadSession.StateOf` | src/App.tsx:282 | An option's state is the recorded state, or idle when none is recorded. |
| `ReadMode.ReadSession.OptionDisabled` | src/App.tsx:282-283 | Every option is disabled while the session is locked. Otherwise only an option picked wrongly is. |
| `ReadMode.ReadSession.constructor` | src/App.tsx:72-87 | The initial state: not started, no question, empty option map, unlocked, zero counters, empty deck, no last word, no timer. |
| `ReadMode.ReadSession.PopNextId` | src/App.tsx:99-106 | Only an empty deck is refilled, with `makeDeck(lastWordId)`. Exactly one id is popped and becomes the last word. A refill never yields the previous word first. |
| `ReadMode.ReadSession.NextQuestion` | src/App.tsx:95-113 | Cancels the timer and pops one id as described. It shows that id's well-formed question with all options idle, unlocked. |
| `ReadMode.ReadSession.Start` | src/App.tsx:115-126 | Resets the counters and the celebrated marker to 0 and marks the session started. Deals a fresh deck from `makeDeck(null)` and shows the question for the id popped from it. |
| `ReadMode.ReadSession.Choose` | src/App.tsx:138-168 | No effect without a question or while locked. A correct pick marks the option correct, locks, counts a correct answer, extends the streak, raises the best streak and schedules the next question. A wrong pick marks only that option wrong, counts a mistake, zeroes the streak and leaves the lock off. |
| `ReadMode.ReadSession.MilestoneEffect` | src/App.tsx:181-190 | Celebrates exactly when started and the streak is a positive multiple of 10 other than the last one celebrated, and then records it. |
| `WriteRules.Clamp` | src/apps/write/WriteApp.tsx:112-114 | The result lies between the bounds and equals the value when the value lies between them. |
| `WriteRules.Trim` | src/apps/write/WriteApp.tsx:127-130 | The trimmed text is a slice of the text with only white space before and after it. It neither starts nor ends with white space, and is empty exactly when the text is all white space. |
| `WriteRules.FirstHanziCharacter` | src/apps/write/WriteApp.tsx:127-130 | There is no character exactly when the text is all white space. Otherwise it is the text's first character that is not white space. |
| `WriteRules.TotalStrokesFallback` | src/apps/write/WriteApp.tsx:132-134 | The guess is at least 1 and past the stroke being drawn. It is stroke number + remaining + 1 when both are non-negative. |
| `WriteRules.InsertUnit` | src/apps/write/WriteApp.tsx:211 | Inserting into an ascending list keeps it ascending and adds exactly that unit. |
| `WriteRules.SortUnits` | src/apps/write/WriteApp.tsx:211 | The numeric sort is ascending and a permutation of its input. |
| `WriteRules.RemoveUnit` | src/apps/write/WriteApp.tsx:209 | The filter keeps exactly the other units and adds none. |
| `WriteRules.ToggleCandidate` | src/apps/write/WriteApp.tsx:208-210 | The candidate selection flips the unit's membership. It is empty exactly when the unit was the only one selected, and has no repeats when the selection had none. |
| `WriteRules.ToggledUnits` | src/apps/write/WriteApp.tsx:205-214 | The result is never empty. It is unchanged when only the toggled unit was selected. Otherwise it flips that unit's membership and is sorted ascending. |
| `WriteRules.UnitsUpTo` | src/apps/write/WriteApp.tsx:424-426 | Units 1 to n, strictly ascending. |
| `WriteRules.SameUnitsUpTo` | src/apps/write/WriteApp.tsx:422-427 | A strictly ascending selection that holds exactly the units up to n is `UnitsUpTo(n)`. |
| `WriteRules.DesiredMaxUnit` | src/apps/write/WriteApp.tsx:417-418 | At least 2 exactly when the streak is at least 10, and 3 exactly when it is at least 20. |
| `WriteRules.DesiredMaxUnitMonotone` | src/apps/write/WriteApp.tsx:417-418 | A longer streak never asks for fewer units. |
| `WriteRules.CelebrationBursts` | src/apps/write/WriteApp.tsx:546-547 | Positive exactly when the new streak is a positive multiple of 10, and then the streak divided by 10. |
| `WriteRules.MilestoneBursts` | src/apps/write/WriteApp.tsx:588 | At least 1, and the streak's count of whole tens once the streak reaches 10. |
| `WriteRules.MilestoneBurstsAgree` | src/apps/write/WriteApp.tsx:582-600 | For a streak due for celebration, the milestone effect's burst count equals the finished word's. |
| `WriteRules.CompletionOutcome` | src/apps/write/WriteApp.tsx:509-564 | A retry happens exactly when the drawing had mistakes and the attempt is below 3. The word is finished exactly when there is no retry and the character is the last. Otherwise the next index is one further and inside the word. |
| `WriteRules.AfterWord` | src/apps/write/WriteApp.tsx:544-551 | A finished word adds one correct word and leaves the mistake count alone. The streak becomes 0 after any mistake, skip or reset, and streak+1 otherwise. The best streak becomes the larger of the old best and the new streak. |
| `WriteRules.WordsScore` | src/apps/write/WriteApp.tsx:544-552 | Over a run of finished words, the correct count grows by their number and the mistake count is untouched. Streak and best streak follow the streak rule on the words without mistake. |
| `WriteRules.LastAcceptable` | src/apps/write/WriteApp.tsx:270-281 | The first candidate popped that avoids the character is the last acceptable entry of the deck. No entry after it is acceptable, and with none found no entry is. |
| `WriteRules.Acceptable` | src/apps/write/WriteApp.tsx:272-275 | Every candidate is accepted when there is no character to avoid or the id names no active word. Otherwise a candidate is accepted exactly when its word's first character differs from the avoided one. A rejected word contains the avoided character. |
| `WriteRules.Scan` | src/apps/write/WriteApp.tsx:262-289 | The scan chooses nothing exactly when the deck is empty. |
| `WriteRules.ScanFinds` | src/apps/write/WriteApp.tsx:266-289 | With an acceptable entry, the scan picks the last one. The entries popped before it go to the front in the order they were popped. |
| `WriteRules.ScanFallsBack` | src/apps/write/WriteApp.tsx:266-289 | With no acceptable entry, the scan picks the last entry rejected and puts the others back in front. |
| `WriteRules.ScanKeepsEntries` | src/apps/write/WriteApp.tsx:262-289 | The chosen id together with the deck afterwards is, as a multiset, the deck before the scan. |
| `WriteRules.ScanPicksLastAcceptable` | src/apps/write/WriteApp.tsx:266-289 | On a whole deck whose last acceptable entry is at j, the pick is `deck[j]` and the deck afterwards is the entries after j, reversed, followed by the entries before j. |
| `WriteRules.ScanPicksFirst` | src/apps/write/WriteApp.tsx:266-289 | On a whole deck with no acceptable entry, the pick is its first entry and the others remain, reversed. |
| `WriteRules.SelectNextId` | src/apps/write/WriteApp.tsx:262-289 | The `while` loop computes `Scan`. It picks the last acceptable id, or the first id when none is acceptable, and loses or duplicates no id. |
| `WriteMode.ActiveIds` | src/apps/write/WriteApp.tsx:141-143 | The active ids are never empty. |
| `WriteMode.AddUnlockedUnits` | src/apps/write/WriteApp.tsx:422-427 | The new selection is the old one plus the units after `prev` up to the desired unit, strictly ascending. |
| `WriteMode.Draw` | src/apps/write/WriteApp.tsx:262-289 | An id is drawn whenever the deck or the refill has one. No id is lost or gained by the draw. |
| `WriteMode.DrawChoice` | src/apps/write/WriteApp.tsx:266-285 | The id drawn is the first popped that avoids the character. Only when every candidate shares it is the deck's first entry taken. |
| `WriteMode.DrawNextId` | src/apps/write/WriteApp.tsx:262-289 | The refill through `makeDeck` and the scan together compute `Draw`. |
| `WriteMode.WriteSession.CurrentCharacter` | src/apps/write/WriteApp.tsx:195 | There is a current character exactly when there is a word and the index lies inside it. |
| `WriteMode.WriteSession.constructor` | src/apps/write/WriteApp.tsx:137-192 | The initial state: unit 1 selected with auto-unlock on, its words active, nothing started, attempt 1, zero counters, an empty deck and no timer. |
| `WriteMode.WriteSession.ToggleUnit` | src/apps/write/WriteApp.tsx:205-214 | Turns auto-unlock off and sets the selection to `ToggledUnits`, keeping the selection invariant. |
| `WriteMode.WriteSession.NextWord` | src/apps/write/WriteApp.tsx:250-299 | The current character becomes the one to avoid. The timer is cleared, the mistake flag, stroke state and index are reset, and the next id is drawn as `Draw`. Its word, when active, is shown under a new quiz key. |
| `WriteMode.WriteSession.DealNextWord` | src/apps/write/WriteApp.tsx:262-298 | Draws the next id as `Draw` and records it as the last word. Shows that id's word, if active, under a new quiz key. |
| `WriteMode.WriteSession.ResetForStart` | src/apps/write/WriteApp.tsx:301-320 | Marks the session started and resets the counters, celebrated marker, mistake flag, timer and stroke count. Deals a fresh deck with `makeDeck(null)` and no character to avoid. |
| `WriteMode.WriteSession.Start` | src/apps/write/WriteApp.tsx:301-323 | Resets as above, then deals the first word of the fresh deck, avoiding only the character on screen. |
| `WriteMode.WriteSession.SkipStroke` | src/apps/write/WriteApp.tsx:348-353 | Marks the word as flawed when a widget exists, and does nothing else. |
| `WriteMode.WriteSession.ResetWord` | src/apps/write/WriteApp.tsx:355-361 | Marks the word flawed, sets the attempt to 1 and the index to 0, and bumps the quiz key. |
| `WriteMode.WriteSession.OnMistake` | src/apps/write/WriteApp.tsx:490-501 | Marks the word flawed, counts a mistake and records the stroke progress. The outline is shown exactly on the second mistake. |
| `WriteMode.WriteSession.OnCorrectStroke` | src/apps/write/WriteApp.tsx:502-508 | Advances the stroke counter, and the progress shows the strokes done out of the known or guessed total. |
| `WriteMode.WriteSession.CharacterDataLoaded` | src/apps/write/WriteApp.tsx:477-481 | Records the loaded stroke count and changes nothing else. |
| `WriteMode.WriteSession.OnComplete` | src/apps/write/WriteApp.tsx:509-564 | A drawing with mistakes below attempt 3 schedules a retry at the next attempt. Otherwise it schedules the next character, or finishes the word. Finishing counts the word, sets the streak to 0 after any mistake, skip or reset and to streak+1 otherwise, raises the best streak, forgets the celebrated milestone on a flawed word, and schedules the next word after `CelebrationBursts` bursts. The attempt stays within 1 to 3. |
| `WriteMode.WriteSession.TimerFires` | src/apps/write/WriteApp.tsx:518-563 | A retry restarts the quiz under a new key. An advance moves to the scheduled character. A finished word deals the next word as `nextWord`. |
| `WriteMode.WriteSession.WriterEffect` | src/apps/write/WriteApp.tsx:438-485 | Once started, with a character and a board, clears the timer and starts a quiz with no strokes drawn. Otherwise changes nothing. |
| `WriteMode.WriteSession.AttemptKeyEffect` | src/apps/write/WriteApp.tsx:406-413 | The attempt restarts at 1 exactly when the word or character index changed since the effect last ran. |
| `WriteMode.WriteSession.AutoUnitEffect` | src/apps/write/WriteApp.tsx:415-429 | A no-op once auto-unlock is off, or when the streak asks for no new unit. Otherwise the selection becomes exactly `UnitsUpTo` of the desired unit. No unit is ever removed and the last unit added never decreases. |
| `WriteMode.WriteSession.SyncActiveWords` | src/apps/write/WriteApp.tsx:197-203 | The refs take the selected units' write words and their ids. |
| `WriteMode.WriteSession.DeckEffect` | src/apps/write/WriteApp.tsx:431-436 | Once started, redeals the deck with `makeDeck(lastWordId)`. It deals the next word only when no timer is pending. Before the start it changes nothing. |
| `WriteMode.WriteSession.ActiveWordsEffect` | src/apps/write/WriteApp.tsx:431-436 | Synchronises the active words, then runs the deck effect on them. |
| `WriteMode.WriteSession.MilestoneEffect` | src/apps/write/WriteApp.tsx:582-600 | Celebrates exactly when the streak is a positive multiple of 10 other than the last one celebrated, with that many tens of bursts, and then records it. |

## Left out

- DOM and SVG construction, JSX rendering, and the brush filter.
- The HanziWriter widget itself (creation, quiz, hints, outline, cancelling). Its callbacks are
  methods that the environment calls with the stroke data it would pass.
- Speech, sound effects and confetti. These are fire-and-forget output.
- Prompt speaking, the prompted-key bookkeeping and the audio switch.
- Timer delays. Only which callback is pending is modelled, not when it fires.
- The celebration timers, `flashStreak` and the streak flash and mistake pulse displays.
- `localStorage` persistence and the board sizing: `ResizeObserver` and its floating-point
  proportions.
- The hint and replay buttons. They only drive the widget and speech.
- `UnitSelector`. It is presentation only.
- Randomness. The shuffles and samples are arguments that meet the random helpers' contracts,
  as described above.
- Each mode's word lists are parameters. Read mode's catalogue is any list of at least three
  words with distinct ids; `Words.AllWordsCatalogue` shows `WORDS` is one. Write mode's unit
  lists are any lists that are all non-empty; `Words.WriteWordsNonEmpty` covers the real ones.
- Hanzi are sequences of Unicode scalar values: `Array.from` on a string splits into code
  points, as the model does.
- The `totalStrokes` state and `totalStrokesRef` are one field. Each counter's state and ref are
  likewise one field. In the source, the effects at src/apps/write/WriteApp.tsx:367-373 copy
  `streak` and `totalStrokes` into their refs after each change, and the handlers write the other
  refs as they update the state, so the model does not separate the two.
- `WriteMode.WriteSession.NextWord`: promises the position invariant rather than the whole
  session invariant. Its callers (`Start`, `TimerFires`, `DeckEffect`) restore and ensure the
  whole invariant.
- `WriteMode.WriteSession.Start` is split into `ResetForStart` and `NextWord`. The fresh deck is
  built before the counters are reset rather than after; the two steps touch disjoint state.
- `WriteMode.WriteSession.ActiveWordsEffect` joins the two effects on the active words: the ref
  update and the deck effect. React runs both after the same render, in that order.
- `ReadMode.ReadSession.Choose`: as in the source, a wrong pick leaves the celebrated milestone
  unchanged. Write mode forgets it on a flawed word.
- `ReadMode.ReadSession.NextQuestion`: the target's question comes from any two distinct
  distractor positions and any order. Which ones `sampleDistinct` picks is not modelled.
- `WriteRules.Scan`: its own contract states only when it chooses. What it chooses is stated by
  the `Scan*` lemmas and `WriteRules.SelectNextId`.
