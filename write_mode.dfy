/**
 * Write mode (`WriteApp.tsx`): the learner hears a word and draws its characters stroke by
 * stroke in the HanziWriter widget. The widget's quiz callbacks, the timers and React's
 * effects are the events of the session below; the widget itself is not part of this model.
 */
module WriteMode {
  import opened Seqs
  import opened Words
  import opened Scoring
  import opened Deck
  import opened WriteRules

  /** The callback the single `nextTimeoutRef` timer holds. */
  datatype Pending =
    | NoTimer                           // `nextTimeoutRef.current === null`
    | RetryCharacter                    // restart the quiz of the same character
    | AdvanceCharacter(nextIndex: nat)  // move on to the character at `nextIndex`
    | AdvanceWord(bursts: nat)          // deal the next word, after `bursts` celebrations
    | Fired                             // the timer ran; its stale id stays in the ref until cleared

  /** `${word.id}:${characterIndex}`: the character an attempt count belongs to. */
  datatype AttemptKey = AttemptKey(wordId: WordId, index: nat)

  datatype StrokeProgress = StrokeProgress(done: int, total: int)

  /**
   * The stroke bookkeeping of the current quiz: `nextStrokeNumRef`, the stroke count once the
   * widget has loaded the character (`totalStrokes`, mirrored in `totalStrokesRef`), and the
   * progress shown.
   */
  datatype StrokeState = StrokeState(nextStrokeNum: int, totalStrokes: Option<int>, progress: Option<StrokeProgress>)

  /** The stroke bookkeeping of a quiz that has not started. */
  const NoStrokes := StrokeState(0, None, None)

  /** The refs `nextWord` deals from: `deckRef`, `lastWordIdRef` and `lastCompletedCharacterRef`. */
  datatype Dealer = Dealer(deck: seq<WordId>, lastWordId: Option<WordId>, avoid: Option<char>)

  /** `selectedUnits` with `autoUnitsEnabledRef` and `lastAutoAddedUnitRef`. */
  datatype Selection = Selection(selected: seq<UnitId>, autoEnabled: bool, lastAutoAdded: UnitId)

  /** The acceptance test of `nextWord`'s scan, for the character to avoid. */
  function AcceptFor(avoid: Option<char>, words: seq<Word>): WordId -> bool {
    (id: WordId) => Acceptable(id, avoid, words)
  }

  /** `activeWordIds`: the ids of the selected units' words, never empty. */
  function ActiveIds(units: seq<UnitId>, lists: UnitId -> seq<Word>): (ids: seq<WordId>)
    requires units != [] && forall u :: |lists(u)| > 0
    ensures |ids| > 0
  {
    WordsForUnitsNonEmpty(units, lists);
    Ids(WordsForUnits(units, lists))
  }

  /** `units` holds exactly the units up to `last`. */
  predicate UnitsUpToLast(units: seq<UnitId>, last: UnitId) {
    forall u: UnitId :: u in units <==> u <= last
  }

  /**
   * The selection update of the auto-unit effect: the units after `prev` up to `desired` are
   * added to `selected` when absent, and the result is sorted ascending.
   */
  method AddUnlockedUnits(selected: seq<UnitId>, prev: UnitId, desired: UnitId) returns (units: seq<UnitId>)
    requires StrictlyAscending(selected)
    ensures StrictlyAscending(units)
    ensures forall u: UnitId :: u in units <==> u in selected || prev < u <= desired
  {
    var next := selected;
    assert Distinct(selected);
    var u: int := prev + 1;
    while u <= desired
      invariant prev + 1 <= u
      invariant u <= desired + 1 || u == prev + 1
      invariant Distinct(next)
      invariant forall x: UnitId :: x in next <==> x in selected || prev < x < u
    {
      if u as UnitId !in next {
        next := next + [u as UnitId];
      }
      u := u + 1;
    }
    units := SortUnits(next);
    DistinctSubMultiset(next, units);
    AscendingDistinct(units);
    forall x: UnitId ensures x in units <==> x in next {
      assert x in units <==> x in multiset(units);
    }
  }

  /**
   * `nextWord`'s draw: an empty deck is refilled with `makeDeck(lastWordId)` from `shuffled`,
   * then the scan takes the next id and leaves the rest. An id is drawn whenever there is one
   * to draw, and no id is lost or gained.
   */
  function Draw(deck: seq<WordId>, lastWordId: Option<WordId>, shuffled: seq<WordId>, accept: WordId -> bool)
    : (r: (Option<WordId>, seq<WordId>))
    ensures r.0.Some? <==> deck != [] || shuffled != []
    ensures r.0.Some? ==>
              multiset(r.1) + multiset{r.0.value} ==
              multiset(deck) + (if deck == [] then multiset(shuffled) else multiset{})
  {
    var dealt := if deck == [] then Dealt(lastWordId, shuffled) else deck;
    ScanKeepsEntries(dealt, [], accept);
    Scan(dealt, [], accept)
  }

  /**
   * The id `nextWord` draws from the deck it scans (the refilled one when the deck was empty):
   * the last acceptable id, the first one popped that avoids the character, and the deck's
   * first id only when no id is acceptable.
   */
  lemma DrawChoice(deck: seq<WordId>, lastWordId: Option<WordId>, shuffled: seq<WordId>, accept: WordId -> bool)
    requires deck != [] || shuffled != []
    ensures var dealt := if deck == [] then Dealt(lastWordId, shuffled) else deck;
            var chosen := Draw(deck, lastWordId, shuffled, accept).0.value;
            && (LastAcceptable(dealt, accept).Some? ==>
                  accept(chosen) && chosen == dealt[LastAcceptable(dealt, accept).value])
            && (LastAcceptable(dealt, accept).None? ==>
                  chosen == dealt[0] && forall id :: id in dealt ==> !accept(id))
  {
    var dealt := if deck == [] then Dealt(lastWordId, shuffled) else deck;
    if LastAcceptable(dealt, accept).Some? {
      ScanPicksLastAcceptable(dealt, accept);
    } else {
      ScanPicksFirst(dealt, accept);
    }
  }

  /** The draw as `nextWord` performs it, refilling an empty deck with `makeDeck` from the ids `ids`. */
  method DrawNextId(deck: seq<WordId>, lastWordId: Option<WordId>, ids: seq<WordId>, shuffled: seq<WordId>,
                    accept: WordId -> bool)
    returns (nextId: WordId, rest: seq<WordId>)
    requires |ids| > 0 && multiset(shuffled) == multiset(ids)
    ensures Draw(deck, lastWordId, shuffled, accept) == (Some(nextId), rest)
  {
    var dealt := deck;
    if dealt == [] {
      dealt := MakeDeck(lastWordId, ids, shuffled);
    }
    var found;
    found, rest := SelectNextId(dealt, accept);
    nextId := found.value;
  }

  /**
   * The unit selection is non-empty, ascending and without repeats, and while auto-unlock is
   * on it is exactly the units up to the last one added.
   */
  predicate SelectionValid(s: Selection) {
    s.selected != [] && StrictlyAscending(s.selected) && (s.autoEnabled ==> UnitsUpToLast(s.selected, s.lastAutoAdded))
  }

  /** The character index and a pending advance point into the current word. */
  predicate PositionValid(word: Option<Word>, index: nat, pending: Pending) {
    && (index == 0 || (word.Some? && index < |word.value.hanzi|))
    && (pending.AdvanceCharacter? ==> word.Some? && pending.nextIndex < |word.value.hanzi|)
  }

  /** The state and refs of `WriteApp` that its logic reads and writes. */
  class WriteSession {
    /** Each unit's write list: `WriteWordsByUnit` in the app. */
    const unitWords: UnitId -> seq<Word>
    var selection: Selection
    /** `activeWordIdsRef`: the ids of the selected units' words, as last synchronised. */
    var activeWordIds: seq<WordId>
    /** `wordsByIdRef`: the words its record was built from, as last synchronised. */
    var activeWords: seq<Word>
    var started: bool
    var word: Option<Word>
    var characterIndex: nat
    /** `characterAttempt` and `characterAttemptRef`, which always hold the same value. */
    var characterAttempt: nat
    /** `characterAttemptKeyRef` */
    var attemptKey: Option<AttemptKey>
    var quizKey: nat
    var stroke: StrokeState
    /** `correctCount`, `mistakeCount`, `streak` (mirrored in `streakRef`) and `bestStreak`. */
    var score: Tally
    var dealer: Dealer
    var pending: Pending
    /** `lastCelebratedStreakRef` */
    var lastCelebratedStreak: nat
    /** `hadMistakeThisWordRef` */
    var hadMistakeThisWord: bool
    /** `writerRef.current !== null`: set once the first widget is created, never cleared. */
    var hasWriter: bool

    /**
     * The session's invariant: every unit has words; at least one unit is selected, ascending
     * and without repeats, and while auto-unlock is on the selection is exactly the units up
     * to the last one added; some word is active; the attempt stays within 1 to 3 and the
     * best streak is never below the streak; the character index and a pending advance point
     * into the current word.
     */
    ghost predicate Valid()
      reads this`selection, this`activeWordIds, this`characterAttempt, this`score
      reads this`word, this`characterIndex, this`pending
    {
      && (forall u :: |unitWords(u)| > 0)
      && SelectionValid(selection)
      && |activeWordIds| > 0
      && 1 <= characterAttempt <= MaxCharacterAttempts && Consistent(score)
      && PositionValid(word, characterIndex, pending)
    }

    /** `currentCharacter`: the character at `characterIndex` of the word, if any. */
    function CurrentCharacter(): (c: Option<char>)
      reads this`word, this`characterIndex
      ensures c.Some? <==> word.Some? && characterIndex < |word.value.hanzi|
    {
      if word.Some? && characterIndex < |word.value.hanzi| then Some(word.value.hanzi[characterIndex])
      else None
    }

    /** The state after mounting, before the mount effect calls `start`. */
    constructor (unitWords: UnitId -> seq<Word>)
      requires forall u :: |unitWords(u)| > 0
      ensures Valid() && this.unitWords == unitWords
      ensures selection == Selection([1], true, 1)
      ensures activeWords == WordsForUnits([1], unitWords) && activeWordIds == Ids(activeWords)
      ensures !started && word.None? && characterIndex == 0 && characterAttempt == 1 && attemptKey.None?
      ensures quizKey == 0 && stroke == NoStrokes && score == Fresh && dealer == Dealer([], None, None)
      ensures pending == NoTimer && lastCelebratedStreak == 0 && !hadMistakeThisWord && !hasWriter
    {
      this.unitWords := unitWords;
      selection := Selection([1], true, 1);
      activeWords := WordsForUnits([1], unitWords);
      activeWordIds := ActiveIds([1], unitWords);
      started := false;
      word := None;
      characterIndex := 0;
      characterAttempt := 1;
      attemptKey := None;
      quizKey := 0;
      stroke := NoStrokes;
      score := Fresh;
      dealer := Dealer([], None, None);
      pending := NoTimer;
      lastCelebratedStreak := 0;
      hadMistakeThisWord := false;
      hasWriter := false;
    }

    /**
     * `toggleUnit(unit)`: switches auto-unlock off for good and flips the unit's membership,
     * unless that would leave no unit selected.
     */
    method ToggleUnit(unit: UnitId)
      requires Valid()
      modifies this`selection
      ensures Valid()
      ensures selection == old(selection).(selected := ToggledUnits(old(selection).selected, unit), autoEnabled := false)
    {
      var next := ToggledUnits(selection.selected, unit);
      assert next != [] && StrictlyAscending(next);
      selection := selection.(selected := next, autoEnabled := false);
    }

    /**
     * `nextWord`: the current character, if any, becomes the one to avoid, the timer is
     * cleared and the word's progress reset; then the next word is dealt. Returns the word
     * shown, if any.
     */
    method NextWord(shuffled: seq<WordId>) returns (next: Option<Word>)
      requires |activeWordIds| > 0 && multiset(shuffled) == multiset(activeWordIds)
      modifies this`dealer, this`pending, this`hadMistakeThisWord, this`stroke, this`characterIndex
      modifies this`word, this`quizKey
      ensures PositionValid(word, characterIndex, pending)
      ensures pending == NoTimer && !hadMistakeThisWord && stroke == NoStrokes && characterIndex == 0
      ensures dealer.avoid == if old(CurrentCharacter()).Some? then old(CurrentCharacter()) else old(dealer.avoid)
      ensures (dealer.lastWordId, dealer.deck) ==
                Draw(old(dealer.deck), old(dealer.lastWordId), shuffled, AcceptFor(dealer.avoid, activeWords))
      ensures dealer.lastWordId.Some? && next == WordById(activeWords, dealer.lastWordId.value)
      ensures next.Some? ==> word == next && quizKey == old(quizKey) + 1
      ensures next.None? ==> word == old(word) && quizKey == old(quizKey)
    {
      var current := CurrentCharacter();
      if current.Some? {
        dealer := dealer.(avoid := current);
      }
      pending, hadMistakeThisWord, stroke, characterIndex := NoTimer, false, NoStrokes, 0;
      next := DealNextWord(shuffled);
    }

    /**
     * The second half of `nextWord`: an empty deck is refilled with `makeDeck(lastWordId)` from
     * `shuffled`; the scan picks the next id, avoiding the character to avoid; the id becomes
     * the last word and, when it names an active word, that word is shown under a new quiz key.
     */
    method DealNextWord(shuffled: seq<WordId>) returns (next: Option<Word>)
      requires |activeWordIds| > 0 && multiset(shuffled) == multiset(activeWordIds)
      modifies this`dealer, this`word, this`quizKey
      ensures dealer.avoid == old(dealer.avoid)
      ensures (dealer.lastWordId, dealer.deck) ==
                Draw(old(dealer.deck), old(dealer.lastWordId), shuffled, AcceptFor(dealer.avoid, activeWords))
      ensures dealer.lastWordId.Some? && next == WordById(activeWords, dealer.lastWordId.value)
      ensures next.Some? ==> word == next && quizKey == old(quizKey) + 1
      ensures next.None? ==> word == old(word) && quizKey == old(quizKey)
    {
      var nextId, rest :=
        DrawNextId(dealer.deck, dealer.lastWordId, activeWordIds, shuffled, AcceptFor(dealer.avoid, activeWords));
      dealer := dealer.(deck := rest, lastWordId := Some(nextId));
      next := WordById(activeWords, nextId);
      if next.Some? {
        word, quizKey := next, quizKey + 1;
      }
    }

    /**
     * `start`: the session is reset and the first word of a fresh deck is dealt with
     * `nextWord`.
     */
    method Start(shuffled: seq<WordId>) returns (first: Option<Word>)
      requires Valid()
      requires multiset(shuffled) == multiset(activeWordIds)
      modifies this`pending, this`dealer, this`started, this`score, this`stroke, this`lastCelebratedStreak
      modifies this`hadMistakeThisWord, this`characterIndex, this`word, this`quizKey
      ensures Valid()
      ensures started && score == Fresh && lastCelebratedStreak == 0
      ensures pending == NoTimer && !hadMistakeThisWord && stroke == NoStrokes && characterIndex == 0
      ensures dealer.avoid == old(CurrentCharacter())
      ensures (dealer.lastWordId, dealer.deck) ==
                Draw(Dealt(None, shuffled), None, shuffled, AcceptFor(dealer.avoid, activeWords))
      ensures dealer.lastWordId.Some? && first == WordById(activeWords, dealer.lastWordId.value)
      ensures first.Some? ==> word == first && quizKey == old(quizKey) + 1
      ensures first.None? ==> word == old(word) && quizKey == old(quizKey)
    {
      ResetForStart(shuffled);
      first := NextWord(shuffled);
    }

    /**
     * The first half of `start`: clears the timer, the counters, the celebrated milestone, the
     * word's mistake flag, the stroke count and progress, the last word and the character to
     * avoid, and deals a fresh deck with `makeDeck(null)` from `shuffled`.
     */
    method ResetForStart(shuffled: seq<WordId>)
      requires Valid()
      requires multiset(shuffled) == multiset(activeWordIds)
      modifies this`pending, this`dealer, this`started, this`score, this`stroke, this`lastCelebratedStreak
      modifies this`hadMistakeThisWord
      ensures Valid()
      ensures started && score == Fresh && lastCelebratedStreak == 0 && pending == NoTimer && !hadMistakeThisWord
      ensures stroke == old(stroke).(totalStrokes := None, progress := None)
      ensures dealer == Dealer(Dealt(None, shuffled), None, None)
    {
      var deck := MakeDeck(None, activeWordIds, shuffled);
      pending := NoTimer;
      started := true;
      score := Fresh;
      stroke := stroke.(totalStrokes := None, progress := None);
      lastCelebratedStreak := 0;
      hadMistakeThisWord := false;
      dealer := Dealer(deck, None, None);
    }

    /** `skipStroke`: once a widget exists, skipping a stroke counts as a mistake in the word. */
    method SkipStroke()
      requires Valid()
      modifies this`hadMistakeThisWord
      ensures Valid()
      ensures hadMistakeThisWord == (old(hadMistakeThisWord) || hasWriter)
    {
      if !hasWriter {
        return;
      }
      hadMistakeThisWord := true;
    }

    /**
     * `resetWord`: the word is drawn again from its first character, at attempt 1, and counts
     * as flawed.
     */
    method ResetWord()
      requires Valid()
      modifies this`hadMistakeThisWord, this`characterAttempt, this`characterIndex, this`quizKey
      ensures Valid()
      ensures hadMistakeThisWord && characterAttempt == 1 && characterIndex == 0
      ensures quizKey == old(quizKey) + 1
    {
      hadMistakeThisWord := true;
      characterAttempt := 1;
      characterIndex := 0;
      quizKey := quizKey + 1;
    }

    /**
     * The widget's `onMistake`: the word is flawed, a mistake is counted and the progress
     * shows the stroke reached, out of the known stroke count or the fallback guess. Returns
     * whether the outline is shown (on the attempt's second mistake, as `totalMistakes` counts
     * the mistakes of the whole quiz of the character).
     */
    method OnMistake(strokeNum: nat, strokesRemaining: nat, totalMistakes: nat) returns (showOutline: bool)
      requires Valid()
      modifies this`hadMistakeThisWord, this`stroke, this`score
      ensures Valid()
      ensures hadMistakeThisWord && score == old(score).(mistakes := old(score).mistakes + 1)
      ensures stroke == old(stroke).(nextStrokeNum := strokeNum, progress := Some(StrokeProgress(strokeNum,
                if stroke.totalStrokes.Some? then stroke.totalStrokes.value
                else TotalStrokesFallback(strokeNum, strokesRemaining))))
      ensures showOutline <==> totalMistakes == 2
    {
      hadMistakeThisWord := true;
      score := score.(mistakes := score.mistakes + 1);
      var total :=
        if stroke.totalStrokes.Some? then stroke.totalStrokes.value else TotalStrokesFallback(strokeNum, strokesRemaining);
      stroke := stroke.(nextStrokeNum := strokeNum, progress := Some(StrokeProgress(strokeNum, total)));
      showOutline := totalMistakes == 2;
    }

    /**
     * The widget's `onCorrectStroke`: the next stroke is the one after, and the progress
     * shows it done, never past the stroke count guessed.
     */
    method OnCorrectStroke(strokeNum: nat, strokesRemaining: nat)
      requires Valid()
      modifies this`stroke
      ensures Valid()
      ensures stroke.nextStrokeNum == strokeNum + 1 && stroke.totalStrokes == old(stroke).totalStrokes
      ensures stroke.progress.Some? && stroke.progress.value.done == strokeNum + 1
      ensures stroke.progress.value.total ==
                if stroke.totalStrokes.Some? then stroke.totalStrokes.value
                else TotalStrokesFallback(strokeNum, strokesRemaining)
      ensures stroke.totalStrokes.None? ==> stroke.progress.value.done <= stroke.progress.value.total
    {
      var total :=
        if stroke.totalStrokes.Some? then stroke.totalStrokes.value else TotalStrokesFallback(strokeNum, strokesRemaining);
      stroke := stroke.(nextStrokeNum := strokeNum + 1, progress := Some(StrokeProgress(strokeNum + 1, total)));
    }

    /** The widget's character data arrived: the stroke count is known. */
    method CharacterDataLoaded(strokeCount: nat)
      requires Valid()
      modifies this`stroke
      ensures Valid() && stroke == old(stroke).(totalStrokes := Some(strokeCount))
    {
      stroke := stroke.(totalStrokes := Some(strokeCount));
    }

    /**
     * The widget's `onComplete` for the current character. A drawing with mistakes, below
     * the third attempt, is retried at the next attempt. Otherwise the next character follows,
     * or, after the last one, the word is scored: one more correct word, the streak extended
     * when the word went without mistake, skip or reset and restarted at 0 otherwise (which
     * also forgets the celebrated milestone), and the next word is scheduled after the
     * celebration bursts the new streak earns.
     */
    method OnComplete(totalMistakes: nat)
      requires Valid() && started && CurrentCharacter().Some?
      modifies this`hadMistakeThisWord, this`characterAttempt, this`pending, this`score, this`lastCelebratedStreak
      ensures Valid()
      ensures hadMistakeThisWord == (old(hadMistakeThisWord) || totalMistakes > 0)
      ensures var outcome :=
                CompletionOutcome(totalMistakes, old(characterAttempt), characterIndex, |word.value.hanzi|);
              && (outcome.Retry? ==>
                    characterAttempt == old(characterAttempt) + 1 && pending == RetryCharacter &&
                    score == old(score) && lastCelebratedStreak == old(lastCelebratedStreak))
              && (outcome.NextCharacter? ==>
                    characterAttempt == old(characterAttempt) && pending == AdvanceCharacter(outcome.index) &&
                    score == old(score) && lastCelebratedStreak == old(lastCelebratedStreak))
              && (outcome.FinishWord? ==>
                    characterAttempt == old(characterAttempt) &&
                    score == AfterWord(old(score), hadMistakeThisWord) &&
                    pending == AdvanceWord(CelebrationBursts(score.streak)) &&
                    lastCelebratedStreak == if hadMistakeThisWord then 0 else old(lastCelebratedStreak))
    {
      var didHaveMistakeThisAttempt := totalMistakes > 0;
      hadMistakeThisWord := hadMistakeThisWord || didHaveMistakeThisAttempt;

      if didHaveMistakeThisAttempt && characterAttempt < MaxCharacterAttempts {
        characterAttempt := characterAttempt + 1;
        pending := RetryCharacter;
      } else if characterIndex < |word.value.hanzi| - 1 {
        var length := |word.value.hanzi|;
        var nextIndex := if characterIndex + 1 < length - 1 then characterIndex + 1 else length - 1;
        pending := AdvanceCharacter(nextIndex);
      } else {
        var didHaveMistake := hadMistakeThisWord;
        var nextStreak := if didHaveMistake then 0 else score.streak + 1;
        var celebrationBursts :=
          if nextStreak > 0 && nextStreak % StreakMilestone == 0 then nextStreak / StreakMilestone else 0;
        score := score.(correct := score.correct + 1, streak := nextStreak, best := Max(score.best, nextStreak));
        lastCelebratedStreak := if didHaveMistake then 0 else lastCelebratedStreak;
        pending := AdvanceWord(celebrationBursts);
      }
    }

    /**
     * The pending timer fires: a retry restarts the quiz of the character under a new quiz
     * key, an advance moves to the next character (in both the timer's id stays in the ref),
     * and a finished word deals the next one with `nextWord` (from `shuffled` should the deck
     * be empty).
     */
    method TimerFires(shuffled: seq<WordId>) returns (next: Option<Word>)
      requires Valid()
      requires pending.RetryCharacter? || pending.AdvanceCharacter? || pending.AdvanceWord?
      requires multiset(shuffled) == multiset(activeWordIds)
      modifies this`pending, this`stroke, this`quizKey, this`characterIndex, this`dealer
      modifies this`hadMistakeThisWord, this`word
      ensures Valid()
      ensures old(pending).RetryCharacter? ==>
                pending == Fired && stroke == NoStrokes && quizKey == old(quizKey) + 1 &&
                characterIndex == old(characterIndex) && dealer == old(dealer) && word == old(word) &&
                hadMistakeThisWord == old(hadMistakeThisWord) && next.None?
      ensures old(pending).AdvanceCharacter? ==>
                pending == Fired && characterIndex == old(pending).nextIndex && stroke == old(stroke) &&
                quizKey == old(quizKey) && dealer == old(dealer) && word == old(word) &&
                hadMistakeThisWord == old(hadMistakeThisWord) && next.None?
      ensures old(pending).AdvanceWord? ==>
                pending == NoTimer && characterIndex == 0 && stroke == NoStrokes && !hadMistakeThisWord &&
                (dealer.lastWordId, dealer.deck) ==
                  Draw(old(dealer.deck), old(dealer.lastWordId), shuffled, AcceptFor(dealer.avoid, activeWords)) &&
                dealer.lastWordId.Some? && next == WordById(activeWords, dealer.lastWordId.value)
    {
      next := None;
      match pending
      case RetryCharacter =>
        stroke := NoStrokes;
        quizKey := quizKey + 1;
        pending := Fired;
      case AdvanceCharacter(nextIndex) =>
        characterIndex := nextIndex;
        pending := Fired;
      case AdvanceWord(_) =>
        next := NextWord(shuffled);
    }

    /**
     * The widget effect, run after a render that changed one of `started`, the word's id, the
     * current character, the character index, the number of characters, the board size, the
     * quiz key or the board element: once started, with a current character and a board to
     * draw on, it clears the timer and sets up a new quiz with no stroke drawn and no stroke
     * count known. A render that changed none of these does not run it, so a pending retry or
     * advance timer survives such a render.
     */
    method WriterEffect(boardReady: bool)
      requires Valid()
      modifies this`pending, this`hasWriter, this`stroke
      ensures Valid()
      ensures var runs := started && CurrentCharacter().Some? && boardReady;
              && (runs ==> pending == NoTimer && hasWriter && stroke == NoStrokes)
              && (!runs ==> pending == old(pending) && hasWriter == old(hasWriter) && stroke == old(stroke))
    {
      if !started || CurrentCharacter().None? || !boardReady {
        return;
      }
      pending := NoTimer;
      hasWriter := true;
      stroke := NoStrokes;
    }

    /**
     * The attempt-key effect: when the word or the character index changed since it last ran,
     * the attempt count restarts at 1.
     */
    method AttemptKeyEffect()
      requires Valid()
      modifies this`attemptKey, this`characterAttempt
      ensures Valid()
      ensures word.None? ==> attemptKey == old(attemptKey) && characterAttempt == old(characterAttempt)
      ensures word.Some? ==> attemptKey == Some(AttemptKey(word.value.id, characterIndex))
      ensures word.Some? && old(attemptKey) != attemptKey ==> characterAttempt == 1
      ensures word.Some? && old(attemptKey) == attemptKey ==> characterAttempt == old(characterAttempt)
    {
      if word.None? {
        return;
      }
      var key := AttemptKey(word.value.id, characterIndex);
      if attemptKey == Some(key) {
        return;
      }
      attemptKey := Some(key);
      characterAttempt := 1;
    }

    /**
     * The auto-unit effect, run when the streak changes: while auto-unlock is on, the units
     * the streak unlocks beyond the last one added are added, so the selection becomes the
     * units up to it; no unit is ever removed and the last unit added never decreases.
     */
    method AutoUnitEffect()
      requires Valid()
      modifies this`selection
      ensures Valid()
      ensures !old(selection).autoEnabled || DesiredMaxUnit(score.streak) <= old(selection).lastAutoAdded ==>
                selection == old(selection)
      ensures old(selection).autoEnabled && DesiredMaxUnit(score.streak) > old(selection).lastAutoAdded ==>
                selection.autoEnabled && selection.lastAutoAdded == DesiredMaxUnit(score.streak) &&
                UnitsUpToLast(selection.selected, DesiredMaxUnit(score.streak)) &&
                selection.selected == UnitsUpTo(DesiredMaxUnit(score.streak))
      ensures forall u :: u in old(selection).selected ==> u in selection.selected
      ensures selection.lastAutoAdded >= old(selection).lastAutoAdded
    {
      if !selection.autoEnabled {
        return;
      }
      var desiredMaxUnit := DesiredMaxUnit(score.streak);
      var prev := selection.lastAutoAdded;
      if desiredMaxUnit <= prev {
        return;
      }
      var units := AddUnlockedUnits(selection.selected, prev, desiredMaxUnit);
      assert selection.selected[0] in units && UnitsUpToLast(units, desiredMaxUnit);
      SameUnitsUpTo(units, desiredMaxUnit);
      selection := selection.(selected := units, lastAutoAdded := desiredMaxUnit);
    }

    /**
     * The ref synchronisation run when the active ids change: `wordsByIdRef` takes the
     * selected units' words and `activeWordIdsRef` their ids.
     */
    method SyncActiveWords()
      requires Valid()
      modifies this`activeWordIds, this`activeWords
      ensures Valid()
      ensures activeWords == WordsForUnits(selection.selected, unitWords) && activeWordIds == Ids(activeWords)
    {
      activeWordIds := ActiveIds(selection.selected, unitWords);
      activeWords := WordsForUnits(selection.selected, unitWords);
    }

    /**
     * The deck effect run after the refs are synchronised: once started, the deck is rebuilt
     * with `makeDeck(lastWordId)` from `shuffled`, and unless a timer is pending the next word
     * is dealt from it.
     */
    method DeckEffect(shuffled: seq<WordId>) returns (next: Option<Word>)
      requires Valid()
      requires multiset(shuffled) == multiset(activeWordIds)
      modifies this`dealer, this`pending, this`hadMistakeThisWord
      modifies this`stroke, this`characterIndex, this`word, this`quizKey
      ensures Valid()
      ensures !started || old(pending) != NoTimer ==>
                pending == old(pending) && word == old(word) && characterIndex == old(characterIndex) &&
                stroke == old(stroke) && hadMistakeThisWord == old(hadMistakeThisWord) &&
                quizKey == old(quizKey) && next.None?
      ensures !started ==> dealer == old(dealer)
      ensures started && old(pending) != NoTimer ==>
                dealer == old(dealer).(deck := Dealt(old(dealer.lastWordId), shuffled))
      ensures started && old(pending) == NoTimer ==>
                (dealer.lastWordId, dealer.deck) ==
                  Draw(Dealt(old(dealer.lastWordId), shuffled), old(dealer.lastWordId), shuffled,
                       AcceptFor(dealer.avoid, activeWords)) &&
                dealer.lastWordId.Some? && next == WordById(activeWords, dealer.lastWordId.value)
    {
      next := None;
      if started {
        var deck := MakeDeck(dealer.lastWordId, activeWordIds, shuffled);
        dealer := dealer.(deck := deck);
        if pending == NoTimer {
          next := NextWord(shuffled);
        }
      }
    }

    /**
     * The effects run, in order, when the active ids change: the refs are synchronised, then
     * the deck effect runs.
     */
    method ActiveWordsEffect(shuffled: seq<WordId>) returns (next: Option<Word>)
      requires Valid()
      requires multiset(shuffled) == multiset(ActiveIds(selection.selected, unitWords))
      modifies this`activeWordIds, this`activeWords, this`dealer, this`pending, this`hadMistakeThisWord
      modifies this`stroke, this`characterIndex, this`word, this`quizKey
      ensures Valid()
      ensures activeWords == WordsForUnits(selection.selected, unitWords) && activeWordIds == Ids(activeWords)
      ensures !started || old(pending) != NoTimer ==>
                pending == old(pending) && word == old(word) && characterIndex == old(characterIndex) &&
                stroke == old(stroke) && hadMistakeThisWord == old(hadMistakeThisWord) &&
                quizKey == old(quizKey) && next.None?
      ensures !started ==> dealer == old(dealer)
      ensures started && old(pending) != NoTimer ==>
                dealer == old(dealer).(deck := Dealt(old(dealer.lastWordId), shuffled))
      ensures started && old(pending) == NoTimer ==>
                (dealer.lastWordId, dealer.deck) ==
                  Draw(Dealt(old(dealer.lastWordId), shuffled), old(dealer.lastWordId), shuffled,
                       AcceptFor(dealer.avoid, activeWords)) &&
                dealer.lastWordId.Some? && next == WordById(activeWords, dealer.lastWordId.value)
    {
      SyncActiveWords();
      next := DeckEffect(shuffled);
    }

    /**
     * The milestone effect, run when the streak changes: a streak that is a positive multiple
     * of 10 and not the last one celebrated is recorded, and as many bursts are scheduled as
     * the finished word planned for.
     */
    method MilestoneEffect() returns (bursts: nat)
      requires Valid()
      modifies this`lastCelebratedStreak
      ensures Valid()
      ensures bursts > 0 <==> MilestoneDue(score.streak, old(lastCelebratedStreak))
      ensures bursts > 0 ==> bursts == CelebrationBursts(score.streak) && lastCelebratedStreak == score.streak
      ensures bursts == 0 ==> lastCelebratedStreak == old(lastCelebratedStreak)
    {
      if score.streak <= 0 || score.streak % StreakMilestone != 0 || lastCelebratedStreak == score.streak {
        return 0;
      }
      lastCelebratedStreak := score.streak;
      bursts := MilestoneBursts(score.streak);
      MilestoneBurstsAgree(score.streak, old(lastCelebratedStreak));
    }
  }
}
