/**
 * The counters both quiz modes keep: answers, mistakes, the current streak of clean answers
 * and the best streak since the session started, and the streak milestones that are celebrated.
 */
module Scoring {

  /** `STREAK_MILESTONE`: every positive multiple of this streak is celebrated. */
  const StreakMilestone: nat := 10

  datatype Tally = Tally(correct: nat, mistakes: nat, streak: nat, best: nat)

  /** The counters right after `start`. */
  const Fresh: Tally := Tally(0, 0, 0, 0)

  function Max(a: nat, b: nat): nat {
    if a < b then b else a
  }

  /** The best streak is never below the current one. */
  predicate Consistent(t: Tally) {
    t.streak <= t.best
  }

  /**
   * One answer (Read mode) or one finished word (Write mode) acts on the streak: a clean one
   * extends it by one, a flawed one resets it to 0, and the best streak becomes
   * `Math.max(best, next)`. The answer and mistake counters are left to the caller.
   */
  function Advance(t: Tally, clean: bool): (r: Tally)
    ensures r.correct == t.correct && r.mistakes == t.mistakes
    ensures r.streak == if clean then t.streak + 1 else 0
    ensures r.best >= t.best && r.best >= r.streak && (r.best == t.best || r.best == r.streak)
  {
    var next := if clean then t.streak + 1 else 0;
    t.(streak := next, best := Max(t.best, next))
  }

  /** Advancing keeps the tally consistent and never lowers the best streak. */
  lemma AdvanceConsistent(t: Tally, clean: bool)
    requires Consistent(t)
    ensures Consistent(Advance(t, clean))
    ensures Advance(t, clean).best >= t.best
  {
  }

  /** The tally after a run of answers, oldest first (`true` is a clean answer). */
  function Replay(t: Tally, outcomes: seq<bool>): Tally
    decreases |outcomes|
  {
    if outcomes == [] then t
    else Advance(Replay(t, outcomes[..|outcomes| - 1]), outcomes[|outcomes| - 1])
  }

  /** The streak observed after each answer of the run. */
  function StreakTrace(t: Tally, outcomes: seq<bool>): seq<nat> {
    seq(|outcomes|, i requires 0 <= i < |outcomes| => Replay(t, outcomes[..i + 1]).streak)
  }

  function MaxOf(s: seq<nat>): nat {
    if s == [] then 0 else Max(MaxOf(s[..|s| - 1]), s[|s| - 1])
  }

  /** The number of clean answers at the end of the run. */
  function TrailingClean(outcomes: seq<bool>): nat {
    if outcomes == [] || !outcomes[|outcomes| - 1] then 0
    else TrailingClean(outcomes[..|outcomes| - 1]) + 1
  }

  /** The best streak is the largest streak observed since the tally was taken. */
  lemma {:induction false} BestIsRunningMax(t: Tally, outcomes: seq<bool>)
    ensures Replay(t, outcomes).best == Max(t.best, MaxOf(StreakTrace(t, outcomes)))
  {
    if outcomes != [] {
      var prefix := outcomes[..|outcomes| - 1];
      BestIsRunningMax(t, prefix);
      forall i | 0 <= i < |prefix|
        ensures StreakTrace(t, outcomes)[i] == StreakTrace(t, prefix)[i]
      {
        assert outcomes[..i + 1] == prefix[..i + 1];
      }
      assert outcomes[..|outcomes|] == outcomes;
      assert StreakTrace(t, outcomes) == StreakTrace(t, prefix) + [Replay(t, outcomes).streak];
    }
  }

  /**
   * The streak counts the clean answers since the last flawed one (on top of the streak the
   * tally started with when there was none).
   */
  lemma {:induction false} StreakIsCleanRun(t: Tally, outcomes: seq<bool>)
    ensures Replay(t, outcomes).streak ==
      if TrailingClean(outcomes) == |outcomes| then t.streak + |outcomes| else TrailingClean(outcomes)
  {
    if outcomes != [] {
      StreakIsCleanRun(t, outcomes[..|outcomes| - 1]);
    }
  }

  /** From the start of a session, the best streak is exactly the largest streak observed. */
  lemma FreshBestIsMax(outcomes: seq<bool>)
    ensures Replay(Fresh, outcomes).best == MaxOf(StreakTrace(Fresh, outcomes))
  {
    BestIsRunningMax(Fresh, outcomes);
  }

  /** A streak to celebrate: a positive multiple of 10 other than the last one celebrated. */
  predicate MilestoneDue(streak: nat, lastCelebrated: nat) {
    streak > 0 && streak % StreakMilestone == 0 && lastCelebrated != streak
  }
}
