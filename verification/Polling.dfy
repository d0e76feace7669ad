/** Waiting for an unlock: `poll_for_unlock`, crates/heyl-app/src/session/lifecycle.rs:279-310. */
module Polling {
  import opened Wrappers

  const U64_MAX: nat := 0xFFFF_FFFF_FFFF_FFFF
  const INTERVAL_MS: nat := 1_000
  const GHOST_HINT_MS: nat := 45_000

  function SaturatingAdd(a: nat, b: nat): nat { if a + b > U64_MAX then U64_MAX else a + b }

  function SaturatingMul(a: nat, b: nat): nat { if a * b > U64_MAX then U64_MAX else a * b }

  /** What one `Sync` says about the session: still locked, unlocked until, or a failure. */
  datatype Answer = Locked | Unlocked(until: nat) | Failure

  datatype Outcome = Granted(until: nat) | UnlockRequired | ApiError

  /** The first poll whose answer ends the wait. */
  function FirstReply(answers: seq<Answer>): (n: nat)
    ensures n <= |answers|
    ensures n < |answers| ==> answers[n] != Locked
    ensures forall i :: 0 <= i < n ==> answers[i] == Locked
  {
    if answers == [] || answers[0] != Locked then 0 else 1 + FirstReply(answers[1..])
  }

  /** The poll at which a limit in seconds gives up: that many seconds in, or when the clock saturates. */
  function LastPoll(limit: nat): nat {
    if limit * INTERVAL_MS <= U64_MAX then limit else (U64_MAX + INTERVAL_MS - 1) / INTERVAL_MS
  }

  predicate GivesUp(answers: seq<Answer>, limit: Option<nat>) {
    limit.Some? && LastPoll(limit.value) < FirstReply(answers)
  }

  /** How the wait ends. A source with no answer left is a failure. */
  function Ending(answers: seq<Answer>, limit: Option<nat>): Outcome {
    var n := FirstReply(answers);
    if GivesUp(answers, limit) then UnlockRequired
    else if n == |answers| || answers[n] == Failure then ApiError
    else Granted(answers[n].until)
  }

  /** The limit ends the wait at the first poll after so many seconds as the 64-bit clock can show of it. */
  lemma LimitMeaning(limit: nat)
    requires limit <= U64_MAX
    ensures var n := LastPoll(limit);
      && SaturatingMul(n, 1_000) >= SaturatingMul(limit, 1_000)
      && (forall m :: 0 <= m < n ==> SaturatingMul(m, 1_000) < SaturatingMul(limit, 1_000))
      && (limit <= 18_446_744_073_709_551 ==> n == limit)
      && (limit > 18_446_744_073_709_551 ==> n == 18_446_744_073_709_552)
  {
  }

  /** Only an answer ends the wait before the limit, and only locked answers up to and at the limit end it there. */
  lemma EndingMeaning(answers: seq<Answer>, limit: Option<nat>, until: nat)
    ensures Ending(answers, limit) == UnlockRequired <==>
      && limit.Some? && LastPoll(limit.value) < |answers|
      && forall i :: 0 <= i <= LastPoll(limit.value) ==> answers[i] == Locked
    ensures Ending(answers, limit) == Granted(until) <==>
      exists n :: 0 <= n < |answers| && answers[n] == Unlocked(until)
                  && (forall i :: 0 <= i < n ==> answers[i] == Locked)
                  && (limit.Some? ==> n <= LastPoll(limit.value))
    ensures var last := Polls(answers, limit) - 1;
      && 0 <= last <= |answers|
      && (forall i :: 0 <= i < last ==> answers[i] == Locked)
      && (match Ending(answers, limit)
          case Granted(until) => last < |answers| && answers[last] == Unlocked(until)
          case ApiError => last == |answers| || answers[last] == Failure
          case UnlockRequired => limit.Some? && last == LastPoll(limit.value))
  {
    hide LastPoll;
    var n := FirstReply(answers);
    if Ending(answers, limit) == Granted(until) {
      assert answers[n] == Unlocked(until);
    }
  }

  /** How many times the backend is asked. */
  function Polls(answers: seq<Answer>, limit: Option<nat>): nat {
    1 + if GivesUp(answers, limit) then LastPoll(limit.value) else FirstReply(answers)
  }

  method PollForUnlock(answers: seq<Answer>, timeoutSecs: Option<nat>) returns (r: Outcome, polls: nat, hints: nat)
    requires timeoutSecs.Some? ==> timeoutSecs.value <= U64_MAX
    ensures r == Ending(answers, timeoutSecs) && polls == Polls(answers, timeoutSecs)
    ensures timeoutSecs.Some? ==> polls <= timeoutSecs.value + 1
    ensures hints == if polls > 46 then 1 else 0
  {
    var waitedMs := 0;
    polls, hints := 0, 0;
    while true
      invariant waitedMs == if polls * INTERVAL_MS > U64_MAX then U64_MAX else polls * INTERVAL_MS
      invariant polls <= FirstReply(answers)
      invariant timeoutSecs.Some? ==> polls <= LastPoll(timeoutSecs.value)
      invariant hints == if polls > GHOST_HINT_MS / INTERVAL_MS then 1 else 0
      decreases |answers| - polls
    {
      polls := polls + 1;
      if polls > |answers| {
        return ApiError, polls, hints;
      }
      match answers[polls - 1]
      case Failure => return ApiError, polls, hints;
      case Unlocked(until) => return Granted(until), polls, hints;
      case Locked =>
      if timeoutSecs.Some? && waitedMs >= SaturatingMul(timeoutSecs.value, 1_000) {
        return UnlockRequired, polls, hints;
      }
      if waitedMs == GHOST_HINT_MS {
        hints := hints + 1;
      }
      waitedMs := SaturatingAdd(waitedMs, INTERVAL_MS);
    }
  }
}
