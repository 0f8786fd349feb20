/**
 * The rules Write mode (`WriteApp.tsx`) applies on its own values: clamping, the first
 * character of a word, the stroke-count fallback, unit selection and auto-unlock, the
 * celebration bursts, what a finished character leads to, and the deck scan of `nextWord`.
 */
module WriteRules {
  import opened Seqs
  import opened Words
  import opened Scoring

  /** `MAX_CHARACTER_ATTEMPTS`: a character is drawn at most this many times per word. */
  const MaxCharacterAttempts: nat := 3
  /** `AUTO_ADD_UNIT_2_STREAK` and `AUTO_ADD_UNIT_3_STREAK`. */
  const AutoAddUnit2Streak: nat := 10
  const AutoAddUnit3Streak: nat := 20

  /** `clamp(value, min, max)`: `Math.min(max, Math.max(min, value))`. */
  function Clamp(value: int, lo: int, hi: int): (r: int)
    ensures r <= hi
    ensures lo <= hi ==> lo <= r
    ensures lo <= value <= hi ==> r == value
    ensures value < lo <= hi ==> r == lo
    ensures hi < value ==> r == hi
  {
    var raised := if lo < value then value else lo;
    if raised < hi then raised else hi
  }

  /** The characters `String.prototype.trim` removes: white space and line terminators. */
  predicate IsJsWhitespace(c: char) {
    || c == '\t' || c == '\n' || c == '\U{000B}' || c == '\U{000C}' || c == '\r' || c == ' '
    || c == '\U{00A0}' || c == '\U{1680}' || ('\U{2000}' <= c <= '\U{200A}')
    || c == '\U{2028}' || c == '\U{2029}' || c == '\U{202F}' || c == '\U{205F}'
    || c == '\U{3000}' || c == '\U{FEFF}'
  }

  /** The number of white-space characters `s` starts with. */
  function LeadingWhitespace(s: string): (n: nat)
    ensures n <= |s|
    ensures forall i :: 0 <= i < n ==> IsJsWhitespace(s[i])
    ensures n < |s| ==> !IsJsWhitespace(s[n])
  {
    if s != [] && IsJsWhitespace(s[0]) then LeadingWhitespace(s[1..]) + 1 else 0
  }

  /** The number of white-space characters `s` ends with. */
  function TrailingWhitespace(s: string): (n: nat)
    ensures n <= |s|
    ensures forall i :: |s| - n <= i < |s| ==> IsJsWhitespace(s[i])
    ensures n < |s| ==> !IsJsWhitespace(s[|s| - 1 - n])
  {
    if s != [] && IsJsWhitespace(s[|s| - 1]) then TrailingWhitespace(s[..|s| - 1]) + 1 else 0
  }

  /** `s.trim()`: `s` without its leading and trailing white space. */
  function Trim(s: string): (r: string)
    ensures r == [] || (!IsJsWhitespace(r[0]) && !IsJsWhitespace(r[|r| - 1]))
    ensures r == [] <==> forall i :: 0 <= i < |s| ==> IsJsWhitespace(s[i])
    ensures exists a, b :: && 0 <= a <= b <= |s| && r == s[a..b]
                           && (forall i :: 0 <= i < a ==> IsJsWhitespace(s[i]))
                           && (forall i :: b <= i < |s| ==> IsJsWhitespace(s[i]))
  {
    var a := LeadingWhitespace(s);
    var t := s[a..];
    assert a < |s| ==> t[0] == s[a];
    TrimSlice(s, a, t);
    t[..|t| - TrailingWhitespace(t)]
  }

  /** The trimmed text is the slice of `s` between its leading and trailing white space. */
  lemma TrimSlice(s: string, a: nat, t: string)
    requires a <= |s| && t == s[a..]
    ensures var b := a + |t| - TrailingWhitespace(t);
            && a <= b <= |s| && t[..|t| - TrailingWhitespace(t)] == s[a..b]
            && forall i :: b <= i < |s| ==> IsJsWhitespace(s[i])
  {
    var b := a + |t| - TrailingWhitespace(t);
    assert forall i :: b <= i < |s| ==> s[i] == t[i - a];
  }

  /**
   * `firstHanziCharacter(text)`: the first code point of the trimmed text, if any (a Dafny
   * `char` is a Unicode scalar value, as each entry of `Array.from(text)` is a code point).
   * It is the first character of `text` that is not white space.
   */
  function FirstHanziCharacter(text: string): (r: Option<char>)
    ensures r.None? <==> forall i :: 0 <= i < |text| ==> IsJsWhitespace(text[i])
    ensures r.Some? ==>
              exists i :: && 0 <= i < |text| && text[i] == r.value && !IsJsWhitespace(text[i])
                          && forall k :: 0 <= k < i ==> IsJsWhitespace(text[k])
  {
    var chars := Trim(text);
    if |chars| > 0 then
      var i := LeadingWhitespace(text);
      assert text[i] == chars[0];
      Some(chars[0])
    else
      None
  }

  /**
   * `computeTotalStrokesFallback(strokeData)`: the stroke count guessed from a stroke event
   * before the character data has loaded, at least 1 and past the stroke being drawn.
   */
  function TotalStrokesFallback(strokeNum: int, strokesRemaining: int): (r: int)
    ensures r >= 1
    ensures 0 <= strokesRemaining ==> strokeNum + 1 <= r
    ensures 0 <= strokeNum && 0 <= strokesRemaining ==> r == strokeNum + strokesRemaining + 1
  {
    var guess := strokeNum + strokesRemaining + 1;
    if guess < 1 then 1 else guess
  }

  // ----- Unit selection -----

  predicate Ascending(s: seq<UnitId>) {
    forall i, j :: 0 <= i < j < |s| ==> s[i] <= s[j]
  }

  predicate StrictlyAscending(s: seq<UnitId>) {
    forall i, j :: 0 <= i < j < |s| ==> s[i] < s[j]
  }

  function UnitSet(s: seq<UnitId>): set<UnitId> {
    set u | u in s
  }

  /** `u` placed into the ascending `s` after every unit not above it. */
  function InsertUnit(s: seq<UnitId>, u: UnitId): (r: seq<UnitId>)
    requires Ascending(s)
    ensures Ascending(r) && multiset(r) == multiset(s) + multiset{u}
  {
    if s == [] then [u]
    else
      var init, last := s[..|s| - 1], s[|s| - 1];
      assert s == init + [last];
      if last <= u then s + [u]
      else
        var rest := InsertUnit(init, u);
        BoundedAppend(rest, last, init, u);
        rest + [last]
  }

  /** Appending a unit not below any of `rest`, whose units are those of `init` and `u`. */
  lemma BoundedAppend(rest: seq<UnitId>, last: UnitId, init: seq<UnitId>, u: UnitId)
    requires Ascending(rest) && multiset(rest) == multiset(init) + multiset{u}
    requires u < last && forall x :: x in init ==> x <= last
    ensures Ascending(rest + [last])
  {
    forall i | 0 <= i < |rest| ensures rest[i] <= last {
      assert rest[i] in multiset(rest);
      if rest[i] != u {
        assert rest[i] in multiset(init);
        assert rest[i] in init;
      }
    }
    var r := rest + [last];
    forall i, j | 0 <= i < j < |r| ensures r[i] <= r[j] {
      if j < |rest| {
        assert r[i] == rest[i] && r[j] == rest[j];
      }
    }
  }

  /** `units.sort((a, b) => a - b)`: the same units, ascending. */
  function SortUnits(s: seq<UnitId>): (r: seq<UnitId>)
    ensures Ascending(r) && multiset(r) == multiset(s)
  {
    if s == [] then []
    else
      assert s == s[..|s| - 1] + [s[|s| - 1]];
      InsertUnit(SortUnits(s[..|s| - 1]), s[|s| - 1])
  }

  /** An ascending sequence without repeats is strictly ascending. */
  lemma AscendingDistinct(s: seq<UnitId>)
    requires Ascending(s) && Distinct(s)
    ensures StrictlyAscending(s)
  {
  }

  /** `prev.filter((u) => u !== unit)` */
  function RemoveUnit(s: seq<UnitId>, unit: UnitId): (r: seq<UnitId>)
    ensures forall u :: u in r <==> u in s && u != unit
    ensures multiset(r) <= multiset(s)
  {
    if s == [] then []
    else
      var rest := RemoveUnit(s[1..], unit);
      assert s == [s[0]] + s[1..];
      if s[0] == unit then rest
      else
        assert multiset([s[0]] + rest) == multiset{s[0]} + multiset(rest);
        [s[0]] + rest
  }

  /**
   * The selection `toggleUnit(unit)` computes from `prev`: the unit is removed when selected
   * and added otherwise, and the result sorted, unless that would leave no unit selected, in
   * which case `prev` is kept.
   */
  function ToggledUnits(prev: seq<UnitId>, unit: UnitId): (next: seq<UnitId>)
    ensures UnitSet(prev) == {unit} ==> next == prev
    ensures UnitSet(prev) != {unit} ==>
              UnitSet(next) == if unit in prev then UnitSet(prev) - {unit} else UnitSet(prev) + {unit}
    ensures UnitSet(prev) != {unit} ==> Ascending(next)
    ensures next != []
    ensures StrictlyAscending(prev) ==> StrictlyAscending(next)
  {
    var candidate := if unit in prev then RemoveUnit(prev, unit) else prev + [unit];
    ToggleCandidate(prev, unit, candidate);
    if |candidate| == 0 then
      prev
    else
      SortedUnitSet(candidate);
      if StrictlyAscending(prev) then
        SortedStrictly(candidate);
        SortUnits(candidate)
      else
        SortUnits(candidate)
  }

  /**
   * The units of the toggled selection before sorting: one fewer or one more, none repeated
   * when `prev` has no repeats, and none at all exactly when `unit` was the only one selected.
   */
  lemma ToggleCandidate(prev: seq<UnitId>, unit: UnitId, candidate: seq<UnitId>)
    requires candidate == if unit in prev then RemoveUnit(prev, unit) else prev + [unit]
    ensures UnitSet(candidate) == if unit in prev then UnitSet(prev) - {unit} else UnitSet(prev) + {unit}
    ensures candidate == [] <==> UnitSet(prev) == {unit}
    ensures StrictlyAscending(prev) ==> Distinct(candidate)
  {
    if candidate == [] {
      assert UnitSet(candidate) == {};
    } else if unit in prev {
      assert candidate[0] in UnitSet(prev) && candidate[0] != unit;
    }
    if StrictlyAscending(prev) {
      assert Distinct(prev);
      if unit in prev {
        DistinctSubMultiset(prev, candidate);
      }
    }
  }

  /** Sorting keeps the set of units. */
  lemma SortedUnitSet(s: seq<UnitId>)
    ensures UnitSet(SortUnits(s)) == UnitSet(s)
  {
    var r := SortUnits(s);
    forall u ensures u in r <==> u in s {
      assert u in r <==> u in multiset(r);
      assert u in s <==> u in multiset(s);
    }
  }

  /** Sorting units without repeats orders them strictly. */
  lemma SortedStrictly(s: seq<UnitId>)
    requires Distinct(s)
    ensures StrictlyAscending(SortUnits(s))
  {
    DistinctSubMultiset(s, SortUnits(s));
    AscendingDistinct(SortUnits(s));
  }

  /** Units 1 to `n`, ascending. */
  function UnitsUpTo(n: UnitId): (r: seq<UnitId>)
    ensures |r| == n && StrictlyAscending(r)
    ensures forall u: UnitId :: u in r <==> u <= n
  {
    var r := seq(n, i requires 0 <= i < n => (i + 1) as UnitId);
    forall u: UnitId | u <= n ensures u in r {
      assert r[u - 1] == u;
    }
    r
  }

  /** A strictly ascending selection holding exactly the units up to `n` is `UnitsUpTo(n)`. */
  lemma {:induction false} SameUnitsUpTo(s: seq<UnitId>, n: UnitId)
    requires StrictlyAscending(s) && forall u: UnitId :: u in s <==> u <= n
    ensures s == UnitsUpTo(n)
  {
    forall i | 0 <= i < |s| ensures s[i] == i + 1 {
      UnitAtPosition(s, n, i);
    }
    assert n in s;
    var j :| 0 <= j < |s| && s[j] == n;
    assert s[|s| - 1] in s;
    var r := UnitsUpTo(n);
    assert |s| == |r|;
    forall i | 0 <= i < |s| ensures s[i] == r[i] {
      assert r[i] == i + 1;
    }
  }

  /** In such a selection, position `i` holds unit `i + 1`. */
  lemma {:induction false} UnitAtPosition(s: seq<UnitId>, n: UnitId, i: nat)
    requires StrictlyAscending(s) && forall u: UnitId :: u in s <==> u <= n
    requires i < |s|
    ensures s[i] == i + 1
    decreases i
  {
    if i > 0 {
      UnitAtPosition(s, n, i - 1);
      assert s[i - 1] < s[i];
    }
    assert s[i] in s;
    var v: UnitId := (i + 1) as UnitId;
    assert v in s;
    var j :| 0 <= j < |s| && s[j] == v;
    if j < i {
      UnitAtPosition(s, n, j);
      assert false;
    } else if j > i {
      assert false;
    }
  }

  /** The largest unit the streak unlocks: 2 from a streak of 10, 3 from a streak of 20. */
  function DesiredMaxUnit(streak: nat): (u: UnitId)
    ensures u >= 2 <==> streak >= AutoAddUnit2Streak
    ensures u == 3 <==> streak >= AutoAddUnit3Streak
  {
    if streak >= AutoAddUnit3Streak then 3 else if streak >= AutoAddUnit2Streak then 2 else 1
  }

  /** A longer streak never unlocks fewer units. */
  lemma DesiredMaxUnitMonotone(s1: nat, s2: nat)
    requires s1 <= s2
    ensures DesiredMaxUnit(s1) <= DesiredMaxUnit(s2)
  {
  }

  // ----- Finishing a character and a word -----

  /**
   * `celebrationBursts` of a finished word: `next / 10` bursts when the new streak is a
   * positive multiple of 10, none otherwise.
   */
  function CelebrationBursts(nextStreak: nat): (b: nat)
    ensures b > 0 <==> nextStreak > 0 && nextStreak % StreakMilestone == 0
    ensures b > 0 ==> b * StreakMilestone == nextStreak
  {
    if nextStreak > 0 && nextStreak % StreakMilestone == 0 then nextStreak / StreakMilestone else 0
  }

  /** `Math.max(1, Math.floor(streak / 10))`: the bursts the milestone effect schedules. */
  function MilestoneBursts(streak: nat): (b: nat)
    ensures b >= 1
    ensures streak >= StreakMilestone ==> b * StreakMilestone <= streak < (b + 1) * StreakMilestone
  {
    Max(1, streak / StreakMilestone)
  }

  /** For a streak due for celebration, the milestone effect and the finished word agree. */
  lemma MilestoneBurstsAgree(streak: nat, lastCelebrated: nat)
    requires MilestoneDue(streak, lastCelebrated)
    ensures MilestoneBursts(streak) == CelebrationBursts(streak)
  {
  }

  /** What `onComplete` leads to once a drawing of the current character is complete. */
  datatype Outcome =
    | Retry                      // draw the same character again, as the next attempt
    | NextCharacter(index: nat)  // go on to the character at `index`
    | FinishWord                 // the word is done: score it and deal the next one

  /**
   * The branch `onComplete` takes for a drawing with `totalMistakes` mistakes, at `attempt`
   * of the character at `index` in a word of `length` characters.
   */
  function CompletionOutcome(totalMistakes: nat, attempt: nat, index: nat, length: nat): (r: Outcome)
    ensures r.Retry? <==> totalMistakes > 0 && attempt < MaxCharacterAttempts
    ensures r.FinishWord? <==> !(totalMistakes > 0 && attempt < MaxCharacterAttempts) && index + 1 >= length
    ensures r.NextCharacter? ==> r.index == index + 1 && r.index < length
  {
    if totalMistakes > 0 && attempt < MaxCharacterAttempts then Retry
    else if index >= length - 1 then FinishWord
    else
      var last := length - 1;
      NextCharacter(if index + 1 < last then index + 1 else last)
  }

  /**
   * The counters after a finished word: one more correct word; the streak grows when the word
   * went without mistake, skip or reset, and restarts at 0 otherwise.
   */
  function AfterWord(t: Tally, hadMistake: bool): (r: Tally)
    ensures r.correct == t.correct + 1 && r.mistakes == t.mistakes
    ensures r.streak == if hadMistake then 0 else t.streak + 1
    ensures r.best >= t.best && r.best >= r.streak && (r.best == t.best || r.best == r.streak)
  {
    Advance(t.(correct := t.correct + 1), !hadMistake)
  }

  function AfterWords(t: Tally, flawed: seq<bool>): Tally
    decreases |flawed|
  {
    if flawed == [] then t else AfterWord(AfterWords(t, flawed[..|flawed| - 1]), flawed[|flawed| - 1])
  }

  function Negated(s: seq<bool>): (r: seq<bool>)
    ensures |r| == |s| && forall i :: 0 <= i < |s| ==> r[i] == !s[i]
  {
    seq(|s|, i requires 0 <= i < |s| => !s[i])
  }

  /**
   * Over a run of finished words, `correctCount` counts them, the mistakes counter is left
   * to the stroke events, and the streak and best streak follow `Replay` on the clean words.
   */
  lemma {:induction false} WordsScore(t: Tally, flawed: seq<bool>)
    ensures AfterWords(t, flawed).correct == t.correct + |flawed|
    ensures AfterWords(t, flawed).mistakes == t.mistakes
    ensures AfterWords(t, flawed).streak == Replay(t, Negated(flawed)).streak
    ensures AfterWords(t, flawed).best == Replay(t, Negated(flawed)).best
  {
    if flawed != [] {
      var prefix := flawed[..|flawed| - 1];
      WordsScore(t, prefix);
      assert Negated(flawed)[..|flawed| - 1] == Negated(prefix);
    }
  }

  // ----- The deck scan of `nextWord` -----

  /**
   * A candidate `nextWord` accepts: there is no character to avoid, or the candidate's word
   * is unknown or has no first character, or its first character differs from it.
   */
  predicate Acceptable(id: WordId, avoid: Option<char>, words: seq<Word>): (b: bool)
    ensures avoid.None? || id !in IdSet(words) ==> b
    ensures avoid.Some? && id in IdSet(words) ==>
              (b <==> FirstHanziCharacter(WordById(words, id).value.hanzi) != avoid)
    ensures !b ==> avoid.Some? && WordById(words, id).Some? && avoid.value in WordById(words, id).value.hanzi
  {
    avoid.None? ||
    match WordById(words, id)
    case None => true
    case Some(w) => FirstHanziCharacter(w.hanzi) != avoid
  }

  /** The position of the last entry of `deck` that `accept` holds of: the first one popped. */
  function LastAcceptable<T>(deck: seq<T>, accept: T -> bool): (r: Option<nat>)
    ensures r.Some? ==> r.value < |deck| && accept(deck[r.value])
    ensures r.Some? ==> forall k :: r.value < k < |deck| ==> !accept(deck[k])
    ensures r.None? ==> forall k :: 0 <= k < |deck| ==> !accept(deck[k])
  {
    if deck == [] then None
    else if accept(deck[|deck| - 1]) then Some(|deck| - 1)
    else LastAcceptable(deck[..|deck| - 1], accept)
  }

  /**
   * The scan of `nextWord`, step by step: pop entries from `deck` until `accept` holds of one,
   * collecting the others in `rejected`; fall back to the last rejected one; put the rest of
   * the rejected ones back in front. The result is the chosen entry and the deck afterwards.
   */
  function Scan<T>(deck: seq<T>, rejected: seq<T>, accept: T -> bool): (r: (Option<T>, seq<T>))
    decreases |deck|
    ensures r.0.None? <==> deck == [] && rejected == []
  {
    if deck == [] then
      if rejected == [] then (None, []) else (Some(rejected[|rejected| - 1]), rejected[..|rejected| - 1])
    else if accept(deck[|deck| - 1]) then
      (Some(deck[|deck| - 1]), rejected + deck[..|deck| - 1])
    else
      Scan(deck[..|deck| - 1], rejected + [deck[|deck| - 1]], accept)
  }

  /**
   * What the scan chooses when an entry is acceptable: the last acceptable entry, with the
   * entries after it moved to the front in the order they were popped.
   */
  lemma {:induction false} ScanFinds<T>(deck: seq<T>, rejected: seq<T>, accept: T -> bool)
    requires LastAcceptable(deck, accept).Some?
    ensures var j := LastAcceptable(deck, accept).value;
      Scan(deck, rejected, accept) == (Some(deck[j]), rejected + Reverse(deck[j + 1..]) + deck[..j])
    decreases |deck|
  {
    var n := |deck|;
    var init, candidate := deck[..n - 1], deck[n - 1];
    assert deck == init + [candidate];
    if accept(candidate) {
      assert deck[n..] == [];
      assert rejected + Reverse(deck[n..]) + deck[..n - 1] == rejected + init;
    } else {
      var j := LastAcceptable(deck, accept).value;
      ScanFinds(init, rejected + [candidate], accept);
      SuffixSnoc(init, candidate, j);
      assert rejected + Reverse(deck[j + 1..]) + deck[..j] ==
             (rejected + [candidate]) + Reverse(init[j + 1..]) + init[..j];
    }
  }

  /**
   * What the scan chooses when no entry is acceptable: the last of the rejected entries
   * followed by the deck reversed, with the others in that order.
   */
  lemma {:induction false} ScanFallsBack<T>(deck: seq<T>, rejected: seq<T>, accept: T -> bool)
    requires LastAcceptable(deck, accept).None? && rejected + Reverse(deck) != []
    ensures var all := rejected + Reverse(deck);
      Scan(deck, rejected, accept) == (Some(all[|all| - 1]), all[..|all| - 1])
    decreases |deck|
  {
    if deck == [] {
      assert rejected + Reverse(deck) == rejected;
    } else {
      var n := |deck|;
      var init, candidate := deck[..n - 1], deck[n - 1];
      assert deck == init + [candidate];
      ReverseOfSnoc(init, candidate);
      assert rejected + Reverse(deck) == (rejected + [candidate]) + Reverse(init);
      ScanFallsBack(init, rejected + [candidate], accept);
    }
  }

  /** The scan loses and duplicates nothing: the chosen entry and the deck afterwards hold the deck and the rejected entries. */
  lemma {:induction false} ScanKeepsEntries<T>(deck: seq<T>, rejected: seq<T>, accept: T -> bool)
    ensures var r := Scan(deck, rejected, accept);
      multiset(r.1) + (if r.0.Some? then multiset{r.0.value} else multiset{}) == multiset(deck) + multiset(rejected)
    decreases |deck|
  {
    if deck == [] {
      if rejected != [] {
        assert rejected == rejected[..|rejected| - 1] + [rejected[|rejected| - 1]];
      }
    } else {
      var n := |deck|;
      assert deck == deck[..n - 1] + [deck[n - 1]];
      ScanKeepsEntries(deck[..n - 1], rejected + [deck[n - 1]], accept);
    }
  }

  /** Slicing `s + [x]` at a position `j` of `s`. */
  lemma SuffixSnoc<T>(s: seq<T>, x: T, j: nat)
    requires j < |s|
    ensures (s + [x])[j] == s[j] && (s + [x])[..j] == s[..j]
    ensures Reverse((s + [x])[j + 1..]) == [x] + Reverse(s[j + 1..])
  {
    assert (s + [x])[j + 1..] == s[j + 1..] + [x];
    ReverseOfSnoc(s[j + 1..], x);
  }

  /** Reversing `s + [x]` puts `x` first. */
  lemma {:induction false} ReverseOfSnoc<T>(s: seq<T>, x: T)
    ensures Reverse(s + [x]) == [x] + Reverse(s)
  {
    if s != [] {
      assert (s + [x])[1..] == s[1..] + [x];
      ReverseOfSnoc(s[1..], x);
    }
  }

  /** The scan of a whole deck with an acceptable entry picks the last one. */
  lemma ScanPicksLastAcceptable<T>(deck: seq<T>, accept: T -> bool)
    requires LastAcceptable(deck, accept).Some?
    ensures var j := LastAcceptable(deck, accept).value;
      Scan(deck, [], accept) == (Some(deck[j]), Reverse(deck[j + 1..]) + deck[..j])
  {
    ScanFinds(deck, [], accept);
    var j := LastAcceptable(deck, accept).value;
    assert [] + Reverse(deck[j + 1..]) + deck[..j] == Reverse(deck[j + 1..]) + deck[..j];
  }

  /**
   * The scan of a non-empty deck with no acceptable entry picks its first entry and leaves the
   * others in reverse order.
   */
  lemma ScanPicksFirst<T>(deck: seq<T>, accept: T -> bool)
    requires LastAcceptable(deck, accept).None? && deck != []
    ensures Scan(deck, [], accept) == (Some(deck[0]), Reverse(deck[1..]))
  {
    assert [] + Reverse(deck) == Reverse(deck);
    ScanFallsBack(deck, [], accept);
    var all := Reverse(deck);
    assert all == Reverse(deck[1..]) + [deck[0]];
    assert all[..|all| - 1] == Reverse(deck[1..]);
  }

  /**
   * `nextWord`'s scan of the deck: the `while` loop that pops candidates until `accept` holds
   * of one (`Acceptable` with the character to avoid), the fallback to the last rejected id and
   * the `unshift` of the rest. It picks the last acceptable id, or the first id when none is
   * acceptable, and loses and duplicates no id.
   */
  method SelectNextId(deck: seq<WordId>, accept: WordId -> bool)
    returns (next: Option<WordId>, rest: seq<WordId>)
    ensures (next, rest) == Scan(deck, [], accept)
    ensures next.None? <==> deck == []
    ensures LastAcceptable(deck, accept).Some? ==>
              var j := LastAcceptable(deck, accept).value;
              next == Some(deck[j]) && rest == Reverse(deck[j + 1..]) + deck[..j]
    ensures LastAcceptable(deck, accept).None? && deck != [] ==>
              next == Some(deck[0]) && rest == Reverse(deck[1..])
    ensures multiset(rest) + (if next.Some? then multiset{next.value} else multiset{}) == multiset(deck)
  {
    var remaining := deck;
    var rejected: seq<WordId> := [];
    next := None;
    while remaining != [] && next.None?
      invariant next.None? ==> Scan(remaining, rejected, accept) == Scan(deck, [], accept)
      invariant next.Some? ==> (next, rejected + remaining) == Scan(deck, [], accept)
      decreases |remaining|, if next.None? then 1 else 0
    {
      var candidate := remaining[|remaining| - 1];
      assert Scan(remaining, rejected, accept) ==
             if accept(candidate) then (Some(candidate), rejected + remaining[..|remaining| - 1])
             else Scan(remaining[..|remaining| - 1], rejected + [candidate], accept);
      remaining := remaining[..|remaining| - 1];
      if accept(candidate) {
        next := Some(candidate);
      } else {
        rejected := rejected + [candidate];
      }
    }
    if next.None? {
      assert remaining == [];
      if |rejected| > 0 {
        next := Some(rejected[|rejected| - 1]);
        rejected := rejected[..|rejected| - 1];
      }
      assert (next, rejected) == Scan(deck, [], accept);
      assert rejected + remaining == rejected;
    }
    rest := rejected + remaining;
    ScanKeepsEntries(deck, [], accept);
    if LastAcceptable(deck, accept).Some? {
      ScanPicksLastAcceptable(deck, accept);
    } else if deck != [] {
      ScanPicksFirst(deck, accept);
    }
  }

}
