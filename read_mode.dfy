/**
 * Read mode (`App.tsx`): the learner sees a word's hanzi and picks its English meaning among
 * three options. The deck is drawn from the whole catalogue.
 */
module ReadMode {
  import opened Seqs
  import opened Words
  import opened Scoring
  import opened Deck

  /** How an option is shown; an option with no entry in the state map is `Idle`. */
  datatype OptionState = Idle | Wrong | Correct

  datatype AnswerOption = AnswerOption(id: WordId, caption: string)

  datatype Question = Question(word: Word, options: seq<AnswerOption>, correctOptionId: WordId)

  /** `({ id: w.id, label: w.english })` */
  function ToOption(w: Word): AnswerOption {
    AnswerOption(w.id, w.english)
  }

  function OptionIds(options: seq<AnswerOption>): seq<WordId> {
    seq(|options|, i requires 0 <= i < |options| => options[i].id)
  }

  /**
   * The words `sampleDistinct` may draw distractors from: those that pass the filter
   * `candidate.id !== word.id`, in catalogue order.
   */
  function Without(words: seq<Word>, id: WordId): (r: seq<Word>)
    ensures forall w :: w in r <==> w in words && w.id != id
    ensures id !in IdSet(words) ==> r == words
  {
    if words == [] then []
    else
      var rest := words[1..];
      assert words == [words[0]] + rest;
      IdSetConcat([words[0]], rest);
      if words[0].id == id then Without(rest, id) else [words[0]] + Without(rest, id)
  }

  /**
   * Leaving out one id of a catalogue with distinct ids keeps the ids distinct and removes
   * exactly one word.
   */
  lemma {:induction false} WithoutDistinct(words: seq<Word>, id: WordId)
    requires DistinctIds(words)
    ensures DistinctIds(Without(words, id))
    ensures id in IdSet(words) ==> |Without(words, id)| == |words| - 1
  {
    if words != [] {
      var rest := words[1..];
      assert words == [words[0]] + rest;
      IdSetConcat([words[0]], rest);
      DistinctRest(words);
      WithoutDistinct(rest, id);
      var tail := Without(rest, id);
      if words[0].id != id {
        assert words[0].id !in IdSet(tail);
        ConsDistinct(words[0], tail);
      }
    }
  }

  /** A word whose id is not among a list's distinct ids, put in front, keeps the ids distinct. */
  lemma ConsDistinct(w: Word, words: seq<Word>)
    requires DistinctIds(words) && w.id !in IdSet(words)
    ensures DistinctIds([w] + words)
  {
    var r := [w] + words;
    assert forall i :: 0 <= i < |words| ==> Ids(r)[i + 1] == Ids(words)[i];
    forall i, j | 0 <= i < j < |r| ensures Ids(r)[i] != Ids(r)[j] {
      if i == 0 {
        assert words[j - 1] in words && Ids(r)[j] == words[j - 1].id;
      } else {
        assert Ids(words)[i - 1] != Ids(words)[j - 1];
      }
    }
  }

  /** The words after the first of a catalogue with distinct ids have distinct ids, none the first's. */
  lemma DistinctRest(words: seq<Word>)
    requires DistinctIds(words) && words != []
    ensures DistinctIds(words[1..]) && words[0].id !in IdSet(words[1..])
  {
    var rest := words[1..];
    assert forall i :: 0 <= i < |rest| ==> Ids(rest)[i] == Ids(words)[i + 1];
    forall w | w in rest ensures w.id != words[0].id {
      var i :| 0 <= i < |rest| && rest[i] == w;
      assert Ids(words)[0] != Ids(words)[i + 1];
    }
  }

  /**
   * The option order `shuffleInPlace` produced: the positions 0, 1 and 2, each once, in some
   * order.
   */
  predicate IsOrderOfThree(order: seq<nat>) {
    && |order| == 3
    && (forall k :: 0 <= k < 3 ==> order[k] < 3)
    && order[0] != order[1] && order[0] != order[2] && order[1] != order[2]
  }

  /**
   * What a question promises: its correct option is its word, which comes from the catalogue;
   * it has three options with distinct ids, one of which is the word's, and each option is a
   * catalogue word shown by its English meaning.
   */
  predicate WellFormedQuestion(q: Question, catalogue: seq<Word>) {
    && q.correctOptionId == q.word.id
    && q.word in catalogue
    && |q.options| == 3
    && Distinct(OptionIds(q.options))
    && q.word.id in OptionIds(q.options)
    && forall o :: o in q.options ==>
         WordById(catalogue, o.id).Some? && WordById(catalogue, o.id).value.english == o.caption
  }

  /** `s` rearranged in `order`: the entry at position `k` is `s[order[k]]`, and none is lost. */
  function Arrange<T>(s: seq<T>, order: seq<nat>): (r: seq<T>)
    requires |s| == 3 && IsOrderOfThree(order)
    ensures |r| == 3
    ensures forall k :: 0 <= k < 3 ==> r[k] == s[order[k]]
    ensures forall j :: 0 <= j < 3 ==> s[j] in r
  {
    var r := [s[order[0]], s[order[1]], s[order[2]]];
    forall j | 0 <= j < 3 ensures s[j] in r {
      if j == order[0] {
        assert r[0] == s[j];
      } else if j == order[1] {
        assert r[1] == s[j];
      } else {
        assert r[2] == s[j];
      }
    }
    r
  }

  /**
   * `buildQuestion(word)`: two distractors drawn by `sampleDistinct` (the candidates at the
   * distinct positions `pick0` and `pick1`), joined after the word and rearranged in `order`.
   */
  method BuildQuestion(catalogue: seq<Word>, word: Word, pick0: nat, pick1: nat, order: seq<nat>)
    returns (q: Question)
    requires DistinctIds(catalogue) && word in catalogue
    requires pick0 != pick1 && pick0 < |catalogue| - 1 && pick1 < |catalogue| - 1
    requires IsOrderOfThree(order)
    ensures q.word == word && WellFormedQuestion(q, catalogue)
  {
    InIdSet(catalogue, FirstIndex(catalogue, word.id));
    var candidates := Without(catalogue, word.id);
    WithoutDistinct(catalogue, word.id);
    var d0, d1 := candidates[pick0], candidates[pick1];
    assert d0 in candidates && d1 in candidates;
    assert d0.id != d1.id by {
      assert Ids(candidates)[pick0] != Ids(candidates)[pick1];
    }
    var options := Arrange([ToOption(word), ToOption(d0), ToOption(d1)], order);
    QuestionWellFormed(catalogue, word, d0, d1, order);
    q := Question(word, options, word.id);
  }

  /** A catalogue word is the one its id looks up, with its English meaning. */
  lemma LooksUpItself(catalogue: seq<Word>, w: Word)
    requires DistinctIds(catalogue) && w in catalogue
    ensures WordById(catalogue, w.id) == Some(w)
  {
    InIdSet(catalogue, FirstIndex(catalogue, w.id));
    SameIdSameWord(catalogue, WordById(catalogue, w.id).value, w);
  }

  /**
   * The word and two other catalogue words with distinct ids, in any order, make a
   * well-formed question.
   */
  lemma QuestionWellFormed(catalogue: seq<Word>, word: Word, d0: Word, d1: Word, order: seq<nat>)
    requires DistinctIds(catalogue) && word in catalogue && d0 in catalogue && d1 in catalogue
    requires word.id != d0.id && word.id != d1.id && d0.id != d1.id
    requires IsOrderOfThree(order)
    ensures WellFormedQuestion(Question(word, Arrange([ToOption(word), ToOption(d0), ToOption(d1)], order), word.id), catalogue)
  {
    OptionIdsOnce(word, d0, d1, order);
    OptionsLookUp(catalogue, word, d0, d1, order);
  }

  /** Three distinct ids, rearranged, stay distinct, and the word's id is among them. */
  lemma {:induction false} OptionIdsOnce(word: Word, d0: Word, d1: Word, order: seq<nat>)
    requires word.id != d0.id && word.id != d1.id && d0.id != d1.id
    requires IsOrderOfThree(order)
    ensures var ids := OptionIds(Arrange([ToOption(word), ToOption(d0), ToOption(d1)], order));
      Distinct(ids) && word.id in ids
  {
    var unarranged := [ToOption(word), ToOption(d0), ToOption(d1)];
    OptionIdsArrange(unarranged, order);
    OptionIdsOfThree(ToOption(word), ToOption(d0), ToOption(d1));
    ArrangeDistinct(word.id, d0.id, d1.id, order);
  }

  /** Three different entries, rearranged, stay different, and the first is among them. */
  lemma ArrangeDistinct<T>(x: T, y: T, z: T, order: seq<nat>)
    requires x != y && x != z && y != z && IsOrderOfThree(order)
    ensures Distinct(Arrange([x, y, z], order)) && x in Arrange([x, y, z], order)
  {
    var s := [x, y, z];
    var r := Arrange(s, order);
    forall i, j | 0 <= i < j < 3 ensures r[i] != r[j] {
      assert r[i] == s[order[i]] && r[j] == s[order[j]];
    }
    assert s[0] in r;
  }

  /** The ids of three options, in order. */
  lemma OptionIdsOfThree(x: AnswerOption, y: AnswerOption, z: AnswerOption)
    ensures OptionIds([x, y, z]) == [x.id, y.id, z.id]
  {
    var ids := OptionIds([x, y, z]);
    assert ids[0] == x.id && ids[1] == y.id && ids[2] == z.id;
  }

  /** The ids of rearranged options are the options' ids rearranged. */
  lemma OptionIdsArrange(options: seq<AnswerOption>, order: seq<nat>)
    requires |options| == 3 && IsOrderOfThree(order)
    ensures OptionIds(Arrange(options, order)) == Arrange(OptionIds(options), order)
  {
    var l, r := OptionIds(Arrange(options, order)), Arrange(OptionIds(options), order);
    assert forall k :: 0 <= k < 3 ==> l[k] == options[order[k]].id == r[k];
  }

  /** Every option of a question built from catalogue words is looked up to its word's meaning. */
  lemma OptionsLookUp(catalogue: seq<Word>, word: Word, d0: Word, d1: Word, order: seq<nat>)
    requires DistinctIds(catalogue) && word in catalogue && d0 in catalogue && d1 in catalogue
    requires IsOrderOfThree(order)
    ensures forall o :: o in Arrange([ToOption(word), ToOption(d0), ToOption(d1)], order) ==>
      WordById(catalogue, o.id).Some? && WordById(catalogue, o.id).value.english == o.caption
  {
    var unarranged := [ToOption(word), ToOption(d0), ToOption(d1)];
    var options := Arrange(unarranged, order);
    forall o | o in options
      ensures WordById(catalogue, o.id).Some? && WordById(catalogue, o.id).value.english == o.caption
    {
      var w := if o == unarranged[0] then word else if o == unarranged[1] then d0 else d1;
      assert o == ToOption(w);
      LooksUpItself(catalogue, w);
    }
  }

  /** A deck dealt from the catalogue's ids holds only catalogue ids. */
  lemma DealtFromCatalogue(catalogue: seq<Word>, deck: seq<WordId>)
    requires multiset(deck) == multiset(Ids(catalogue))
    ensures |deck| == |catalogue|
    ensures forall id :: id in deck ==> id in IdSet(catalogue)
  {
    assert |deck| == |multiset(deck)| == |Ids(catalogue)|;
    forall id | id in deck ensures id in IdSet(catalogue) {
      assert id in multiset(Ids(catalogue));
      var i :| 0 <= i < |catalogue| && Ids(catalogue)[i] == id;
      InIdSet(catalogue, i);
    }
  }

  /** With distinct ids, a catalogue word is determined by its id. */
  lemma SameIdSameWord(words: seq<Word>, v: Word, w: Word)
    requires DistinctIds(words) && v in words && w in words && v.id == w.id
    ensures v == w
  {
    var i :| 0 <= i < |words| && words[i] == v;
    var j :| 0 <= j < |words| && words[j] == w;
    assert Ids(words)[i] == Ids(words)[j];
  }

  /**
   * The counters after a pick: a correct one adds to `correctCount` and extends the streak,
   * a wrong one adds to `mistakeCount` and resets the streak.
   */
  function AfterChoice(t: Tally, isCorrect: bool): (r: Tally)
    ensures r.correct == t.correct + (if isCorrect then 1 else 0)
    ensures r.mistakes == t.mistakes + (if isCorrect then 0 else 1)
    ensures r.streak == if isCorrect then t.streak + 1 else 0
    ensures r.best >= t.best && r.best >= r.streak && (r.best == t.best || r.best == r.streak)
  {
    if isCorrect then Advance(t.(correct := t.correct + 1), true)
    else Advance(t.(mistakes := t.mistakes + 1), false)
  }

  /** The counters after a run of picks, oldest first. */
  function AfterChoices(t: Tally, picks: seq<bool>): Tally
    decreases |picks|
  {
    if picks == [] then t else AfterChoice(AfterChoices(t, picks[..|picks| - 1]), picks[|picks| - 1])
  }

  function Count(picks: seq<bool>, b: bool): nat {
    multiset(picks)[b]
  }

  /**
   * Over a run of picks, `correctCount` and `mistakeCount` count the correct and the wrong
   * picks, and the streak and best streak evolve as `Replay` says: the streak counts the
   * correct picks since the last wrong one, the best streak is the largest streak observed.
   */
  lemma {:induction false} ChoicesScore(t: Tally, picks: seq<bool>)
    ensures AfterChoices(t, picks).correct == t.correct + Count(picks, true)
    ensures AfterChoices(t, picks).mistakes == t.mistakes + Count(picks, false)
    ensures AfterChoices(t, picks).streak == Replay(t, picks).streak
    ensures AfterChoices(t, picks).best == Replay(t, picks).best
  {
    if picks != [] {
      var prefix := picks[..|picks| - 1];
      ChoicesScore(t, prefix);
      assert picks == prefix + [picks[|picks| - 1]];
    }
  }

  /**
   * The Read-mode session: the React state and refs of `App`. `advancePending` stands for the
   * timer held in `nextTimeoutRef`, whose callback is `NextQuestion`.
   */
  class ReadSession {
    /** `WORDS` (see `Words.AllWordsCatalogue` for why it meets `Valid`). */
    const catalogue: seq<Word>
    var started: bool
    var question: Option<Question>
    var optionStates: map<WordId, OptionState>
    var locked: bool
    /** `correctCount`, `mistakeCount`, `streak` and `bestStreak`. */
    var score: Tally
    var deck: seq<WordId>
    var lastWordId: Option<WordId>
    var advancePending: bool
    var lastCelebratedStreak: nat

    /**
     * The session's invariant: the catalogue has at least three words with distinct ids, the
     * best streak is never below the streak, the deck holds catalogue ids only and the
     * question shown is well formed.
     */
    ghost predicate Valid()
      reads this`score, this`deck, this`question
    {
      && DistinctIds(catalogue) && |catalogue| >= 3
      && Consistent(score)
      && (forall id :: id in deck ==> id in IdSet(catalogue))
      && (question.Some? ==> WellFormedQuestion(question.value, catalogue))
    }

    /** `optionStates[option.id] ?? "idle"` */
    function StateOf(id: WordId): (s: OptionState)
      reads this`optionStates
      ensures s != Idle <==> id in optionStates && optionStates[id] != Idle
      ensures id in optionStates ==> s == optionStates[id]
      ensures id !in optionStates ==> s == Idle
    {
      if id in optionStates then optionStates[id] else Idle
    }

    /** An option button is disabled while the session is locked or once it was picked wrongly. */
    predicate OptionDisabled(id: WordId): (d: bool)
      reads this`locked, this`optionStates
      ensures !locked ==> (d <==> id in optionStates && optionStates[id] == Wrong)
      ensures locked ==> d
    {
      locked || StateOf(id) == Wrong
    }

    /** The state before the first `start`. */
    constructor (catalogue: seq<Word>)
      requires DistinctIds(catalogue) && |catalogue| >= 3
      ensures Valid() && this.catalogue == catalogue
      ensures !started && question.None? && optionStates == map[] && !locked
      ensures score == Fresh && deck == [] && lastWordId.None?
      ensures !advancePending && lastCelebratedStreak == 0
    {
      this.catalogue := catalogue;
      started := false;
      question := None;
      optionStates := map[];
      locked := false;
      score := Fresh;
      deck := [];
      lastWordId := None;
      advancePending := false;
      lastCelebratedStreak := 0;
    }

    /**
     * `nextQuestion`: cancel the pending advance, refill an empty deck with
     * `makeDeck(lastWordId)`, pop one id, record it as the last word and show its question
     * with every option idle and the session unlocked. `shuffled`, `pick0`, `pick1` and
     * `order` are the outcomes of the random draws.
     */
    method NextQuestion(shuffled: seq<WordId>, pick0: nat, pick1: nat, order: seq<nat>)
      requires Valid()
      requires multiset(shuffled) == multiset(Ids(catalogue))
      requires pick0 != pick1 && pick0 < |catalogue| - 1 && pick1 < |catalogue| - 1
      requires IsOrderOfThree(order)
      modifies this`advancePending, this`deck, this`lastWordId, this`question, this`optionStates, this`locked
      ensures Valid()
      ensures !advancePending && !locked && optionStates == map[]
      ensures lastWordId.Some? && question.Some? && question.value.word.id == lastWordId.value
      ensures deck + [lastWordId.value] ==
                if old(deck) == [] then Dealt(old(lastWordId), shuffled) else old(deck)
      ensures old(deck) == [] && old(lastWordId).Some? ==> lastWordId != old(lastWordId)
    {
      advancePending := false;
      var nextWordId := PopNextId(shuffled);
      var word := WordById(catalogue, nextWordId);
      var q := BuildQuestion(catalogue, word.value, pick0, pick1, order);
      question := Some(q);
      optionStates := map[];
      locked := false;
    }

    /**
     * The deck part of `nextQuestion`: refill an empty deck with `makeDeck(lastWordId)`, pop
     * its last id and record it as the last word. A refilled deck never starts with the
     * previous word.
     */
    method PopNextId(shuffled: seq<WordId>) returns (nextWordId: WordId)
      requires Valid()
      requires multiset(shuffled) == multiset(Ids(catalogue))
      modifies this`deck, this`lastWordId
      ensures Valid() && nextWordId in IdSet(catalogue) && lastWordId == Some(nextWordId)
      ensures deck + [nextWordId] == if old(deck) == [] then Dealt(old(lastWordId), shuffled) else old(deck)
      ensures old(deck) == [] && old(lastWordId).Some? ==> nextWordId != old(lastWordId).value
    {
      var dealt := deck;
      if dealt == [] {
        dealt := MakeDeck(lastWordId, Ids(catalogue), shuffled);
        DealtFromCatalogue(catalogue, dealt);
        if lastWordId.Some? {
          DealtAvoidsRepeat(lastWordId, Ids(catalogue), shuffled);
        }
      }
      nextWordId := dealt[|dealt| - 1];
      var rest := dealt[..|dealt| - 1];
      assert dealt == rest + [nextWordId];
      assert forall id :: id in rest ==> id in dealt;
      deck, lastWordId := rest, Some(nextWordId);
    }

    /**
     * `start` (and `restart`): cancel the pending advance, reset the counters, the celebrated
     * milestone and the last word, deal a fresh deck with `makeDeck(null)` (`shuffled`) and
     * show its first question (drawn with `pick0`, `pick1` and `order`; the fresh deck holds
     * every catalogue id, so `nextQuestion` pops from it without a refill).
     */
    method Start(shuffled: seq<WordId>, pick0: nat, pick1: nat, order: seq<nat>)
      requires Valid()
      requires multiset(shuffled) == multiset(Ids(catalogue))
      requires pick0 != pick1 && pick0 < |catalogue| - 1 && pick1 < |catalogue| - 1
      requires IsOrderOfThree(order)
      modifies this`advancePending, this`started, this`score, this`lastCelebratedStreak
      modifies this`deck, this`lastWordId, this`question, this`optionStates, this`locked
      ensures Valid()
      ensures started && score == Fresh && lastCelebratedStreak == 0
      ensures !advancePending && !locked && optionStates == map[]
      ensures lastWordId.Some? && question.Some? && question.value.word.id == lastWordId.value
      ensures deck + [lastWordId.value] == shuffled
    {
      advancePending := false;
      started := true;
      score := Fresh;
      lastCelebratedStreak := 0;
      var d := MakeDeck(None, Ids(catalogue), shuffled);
      assert |catalogue| == |Ids(catalogue)|;
      DealtFromCatalogue(catalogue, d);
      deck, lastWordId := d, None;
      NextQuestion(shuffled, pick0, pick1, order);
    }

    /**
     * `choose(optionId)`: ignored while there is no question or the session is locked.
     * A correct pick marks the option correct, locks the session, counts the answer, extends
     * the streak and schedules the next question; a wrong one marks the option wrong, counts
     * a mistake and resets the streak.
     */
    method Choose(optionId: WordId)
      requires Valid()
      modifies this`optionStates, this`score, this`locked, this`advancePending
      ensures Valid()
      ensures old(question).None? || old(locked) ==>
                optionStates == old(optionStates) && score == old(score) &&
                locked == old(locked) && advancePending == old(advancePending)
      ensures old(question).Some? && !old(locked) ==>
                var isCorrect := optionId == old(question).value.correctOptionId;
                && optionStates == old(optionStates)[optionId := if isCorrect then Correct else Wrong]
                && score == AfterChoice(old(score), isCorrect)
                && locked == isCorrect
                && advancePending == (isCorrect || old(advancePending))
    {
      if question.None? || locked {
        return;
      }
      var isCorrect := optionId == question.value.correctOptionId;
      optionStates := optionStates[optionId := if isCorrect then Correct else Wrong];
      if isCorrect {
        locked := true;
        var next := score.streak + 1;
        score := score.(correct := score.correct + 1, streak := next, best := Max(score.best, next));
        advancePending := true;
        return;
      }
      score := score.(mistakes := score.mistakes + 1, streak := 0);
    }

    /**
     * The milestone effect, run after a render: once started, a streak that is a positive
     * multiple of 10 and not the last one celebrated is celebrated and recorded.
     */
    method MilestoneEffect() returns (celebrate: bool)
      requires Valid()
      modifies this`lastCelebratedStreak
      ensures Valid()
      ensures celebrate == (started && MilestoneDue(score.streak, old(lastCelebratedStreak)))
      ensures lastCelebratedStreak == if celebrate then score.streak else old(lastCelebratedStreak)
    {
      celebrate := started && score.streak > 0 && score.streak % StreakMilestone == 0 &&
                   lastCelebratedStreak != score.streak;
      if celebrate {
        lastCelebratedStreak := score.streak;
      }
    }
  }
}
