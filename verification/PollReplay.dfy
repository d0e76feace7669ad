/**
 * A recorded wait for an unlock, collapsed and replayed: lifecycle.rs:248-310 driven by corpus.rs:443-461
 * from what record.rs:383-422 leaves.
 */
module PollReplay {
  import opened Wrappers
  import opened Polling
  import opened Corpus
  import opened Collapse

  /** The reply kept for a call is what it says about our session; for the unlock request, whether it was taken. */
  type Tape<Q> = seq<Record<Q, Answer>>

  /** The calls a wait makes: one `Sync`, the request, then a `Sync` per poll. */
  function WaitCalls<Q>(sync: Call<Q>, ask: Call<Q>, polls: nat): (calls: seq<Call<Q>>)
    ensures |calls| == 2 + polls
  {
    [sync, ask] + seq(polls, _ => sync)
  }

  /** What a replay says to call `j` of a run; a call with no record left fails. */
  function Reply<Q(==)>(tape: Tape<Q>, calls: seq<Call<Q>>, j: nat): Answer
    requires j < |calls|
  {
    match Corpus.Answer(tape, calls, j)
    case Some(i) => tape[i].reply
    case None => Failure
  }

  /** The replies a replay gives the polling loop, more of them than there are records. */
  function PollReplies<Q(==)>(tape: Tape<Q>, sync: Call<Q>, ask: Call<Q>): (answers: seq<Answer>)
    ensures |answers| == |tape| + 1
  {
    seq(|tape| + 1, k requires 0 <= k => Reply(tape, WaitCalls(sync, ask, k + 1), k + 2))
  }

  /** `unlock_and_wait` against a replayed recording. */
  function UnlockAndWait<Q(==)>(tape: Tape<Q>, sync: Call<Q>, ask: Call<Q>, limit: Option<nat>): Outcome {
    match Reply(tape, [sync], 0)
    case Unlocked(until) => Granted(until)
    case Failure => ApiError
    case Locked =>
      if Reply(tape, [sync, ask], 1) == Failure then ApiError
      else Ending(PollReplies(tape, sync, ask), limit)
  }

  function Keep<Q>(call: Call<Q>, reply: Answer): Record<Q, Answer> { Record(call.method_, Some(call.request), reply) }

  /** The recording of a wait that was granted after `locked` polls said no. */
  function Recording<Q>(sync: Call<Q>, ask: Call<Q>, locked: nat, until: nat): Tape<Q> {
    [Keep(sync, Locked), Keep(ask, Locked)] + seq(locked, _ => Keep(sync, Locked)) + [Keep(sync, Unlocked(until))]
  }

  // ---- replaying a recording

  lemma RecordingKeys<Q>(sync: Call<Q>, ask: Call<Q>, locked: nat, until: nat)
    ensures var tape := Recording(sync, ask, locked, until);
      Recorded(tape) && KeysOf(tape) == WaitCalls(sync, ask, locked + 1)
  {
  }

  /** A recording answers its own calls one by one. */
  lemma ReplyInOrder<Q(!new)>(sync: Call<Q>, ask: Call<Q>, locked: nat, until: nat, calls: seq<Call<Q>>, j: nat)
    requires j < |calls| <= locked + 3 && calls == WaitCalls(sync, ask, locked + 1)[..|calls|]
    ensures Reply(Recording(sync, ask, locked, until), calls, j) == Recording(sync, ask, locked, until)[j].reply
  {
    var tape, all := Recording(sync, ask, locked, until), WaitCalls(sync, ask, locked + 1);
    RecordingKeys(sync, ask, locked, until);
    assert calls[..j] == all[..j] && calls[j] == all[j];
    ReplayInOrder(tape, j);
  }

  lemma {:induction false} FirstReplyIs(answers: seq<Answer>, n: nat)
    requires n < |answers| && answers[n] != Locked && forall i :: 0 <= i < n ==> answers[i] == Locked
    ensures FirstReply(answers) == n
  {
    if n > 0 { FirstReplyIs(answers[1..], n - 1); }
  }

  /** A replay says what was recorded: locked, the request taken, and locked until the grant. */
  lemma ReplayedAnswers<Q(!new)>(sync: Call<Q>, ask: Call<Q>, locked: nat, until: nat)
    ensures var tape := Recording(sync, ask, locked, until);
      var answers := PollReplies(tape, sync, ask);
      && Reply(tape, [sync], 0) == Locked && Reply(tape, [sync, ask], 1) == Locked
      && FirstReply(answers) == locked < |answers| && answers[locked] == Unlocked(until)
  {
    hide Reply;
    var tape := Recording(sync, ask, locked, until);
    var answers := PollReplies(tape, sync, ask);
    ReplyInOrder(sync, ask, locked, until, [sync], 0);
    ReplyInOrder(sync, ask, locked, until, [sync, ask], 1);
    forall k | 0 <= k <= locked ensures answers[k] == tape[k + 2].reply {
      assert WaitCalls(sync, ask, k + 1) == WaitCalls(sync, ask, locked + 1)[..k + 3];
      ReplyInOrder(sync, ask, locked, until, WaitCalls(sync, ask, k + 1), k + 2);
    }
    FirstReplyIs(answers, locked);
  }

  /** Replaying a granted recording grants the same deadline, within any limit the wait itself met. */
  lemma RecordingReplays<Q(!new)>(sync: Call<Q>, ask: Call<Q>, locked: nat, until: nat, limit: Option<nat>)
    requires limit.Some? ==> locked <= LastPoll(limit.value)
    ensures UnlockAndWait(Recording(sync, ask, locked, until), sync, ask, limit) == Granted(until)
  {
    ReplayedAnswers(sync, ask, locked, until);
    hide Recording, Reply;
  }

  /** And runs into any limit it did not meet. */
  lemma RecordingTimesOut<Q(!new)>(sync: Call<Q>, ask: Call<Q>, locked: nat, until: nat, limit: nat)
    requires LastPoll(limit) < locked
    ensures UnlockAndWait(Recording(sync, ask, locked, until), sync, ask, Some(limit)) == UnlockRequired
  {
    ReplayedAnswers(sync, ask, locked, until);
    hide Recording, Reply;
  }

  /** A recording that does not hold the request fails there, whatever it says of the session afterwards. */
  lemma AskedForNothing<Q(!new)>(sync: Call<Q>, ask: Call<Q>, until: nat, limit: Option<nat>)
    requires sync.method_ != ask.method_
    ensures UnlockAndWait([Keep(sync, Locked), Keep(sync, Unlocked(until))], sync, ask, limit) == ApiError
  {
    var tape := [Keep(sync, Locked), Keep(sync, Unlocked(until))];
    assert KeysOf(tape) == [sync, sync] && [sync, sync][..0] == [] && [sync, ask][..1] == [sync];
    ReplayInOrder(tape, 0);
    assert Corpus.Answer(tape, [sync], 0) == Some(0);
    TakenMeaning(tape, ConsumedBy(tape, [sync, ask][..1]), ask.method_, Some(ask.request));
    assert Corpus.Answer(tape, [sync, ask], 1) == None;
  }

  /** A session already unlocked is granted without asking. */
  lemma AlreadyUnlocked<Q(!new)>(sync: Call<Q>, ask: Call<Q>, until: nat, limit: Option<nat>)
    ensures UnlockAndWait([Keep(sync, Unlocked(until))], sync, ask, limit) == Granted(until)
    ensures UnlockAndWait([], sync, ask, limit) == ApiError
  {
    var tape := [Keep(sync, Unlocked(until))];
    assert KeysOf(tape) == [sync];
    ReplayInOrder(tape, 0);
    assert Corpus.Answer<Q, Answer>([], [sync], 0) == None;
  }

  /** And so it is for `ensure`. */
  lemma EnsureUnlocked<Q(!new)>(sync: Call<Q>, ask: Call<Q>, until: nat, limit: Option<nat>)
    ensures Ensure([Keep(sync, Unlocked(until))], sync, ask, limit) == Granted(until)
    ensures Ensure([], sync, ask, limit) == ApiError
  {
    var tape := [Keep(sync, Unlocked(until))];
    assert KeysOf(tape) == [sync];
    ReplayInOrder(tape, 0);
    assert Corpus.Answer<Q, Answer>([], [sync], 0) == None;
  }

  // ---- collapsing a recording

  /** Collapsing a wait keeps the first poll's answer and the grant. */
  lemma CollapseRecording<Q(!new)>(sync: Call<Q>, ask: Call<Q>, locked: nat, until: nat, methods: seq<string>)
    requires Declared(methods, sync.method_) && !Declared(methods, ask.method_)
    ensures Collapsed(Recording(sync, ask, locked, until), methods)
         == Recording(sync, ask, if locked == 0 then 0 else 1, until)
  {
    var tape := Recording(sync, ask, locked, until);
    var n := |tape|;
    forall i | 2 <= i < n ensures tape[i].method_ == sync.method_ {}
    assert InRun(tape, methods, 2, n);
    RunLeavesEnds(tape, methods, 2, n);
    assert Survivors(tape, methods, 0) == [];
    assert Survivor(tape, methods, 0) == [tape[0]];
    assert Survivors(tape, methods, 1) == [tape[0]];
    assert Survivor(tape, methods, 1) == [tape[1]];
    assert Survivors(tape, methods, 2) == [tape[0], tape[1]];
  }

  /**
   * For every wait that ends in a grant within its limit, the collapsed recording replays to the same
   * deadline as the full one, within the same limit, in at most two polls.
   */
  lemma CollapsedReplays<Q(!new)>(sync: Call<Q>, ask: Call<Q>, live: seq<Answer>, limit: Option<nat>, until: nat,
                           methods: seq<string>)
    requires Ending(live, limit) == Granted(until)
    requires Declared(methods, sync.method_) && !Declared(methods, ask.method_)
    ensures var tape := Recording(sync, ask, Polls(live, limit) - 1, until);
      && UnlockAndWait(tape, sync, ask, limit) == Granted(until)
      && UnlockAndWait(Collapsed(tape, methods), sync, ask, limit) == Granted(until)
      && |Collapsed(tape, methods)| <= 4
  {
    var locked := Polls(live, limit) - 1;
    RecordingReplays(sync, ask, locked, until, limit);
    CollapseRecording(sync, ask, locked, until, methods);
    RecordingReplays(sync, ask, if locked == 0 then 0 else 1, until, limit);
  }

  // ---- where collapsing is not enough

  /** The calls of `ensure` on a locked slot: it syncs once more before asking, and once more after the grant. */
  function EnsureCalls<Q>(sync: Call<Q>, ask: Call<Q>, syncs: nat): (calls: seq<Call<Q>>)
    ensures |calls| == 3 + syncs
  {
    [sync, sync, ask] + seq(syncs, _ => sync)
  }

  function EnsureReplies<Q(==)>(tape: Tape<Q>, sync: Call<Q>, ask: Call<Q>): (answers: seq<Answer>)
    ensures |answers| == |tape| + 1
  {
    seq(|tape| + 1, k requires 0 <= k => Reply(tape, EnsureCalls(sync, ask, k + 1), k + 3))
  }

  /** How the wait inside `ensure` ends, and after how many polls. */
  function WaitInside<Q(==)>(tape: Tape<Q>, sync: Call<Q>, ask: Call<Q>, limit: Option<nat>): (Outcome, nat) {
    match Reply(tape, [sync, sync], 1)
    case Unlocked(until) => (Granted(until), 0)
    case Failure => (ApiError, 0)
    case Locked =>
      if Reply(tape, [sync, sync, ask], 2) == Failure then (ApiError, 0)
      else (Ending(EnsureReplies(tape, sync, ask), limit), Polls(EnsureReplies(tape, sync, ask), limit))
  }

  /** The `Sync` after the wait, which the grant is read from. */
  function ReadGrant<Q(==)>(tape: Tape<Q>, sync: Call<Q>, ask: Call<Q>, polls: nat): Outcome {
    match Reply(tape, EnsureCalls(sync, ask, polls + 1), polls + 3)
    case Unlocked(until) => Granted(until)
    case Locked => UnlockRequired
    case Failure => ApiError
  }

  /** `ensure` against a replayed recording: wait, then read the grant with one more `Sync`. */
  function Ensure<Q(==)>(tape: Tape<Q>, sync: Call<Q>, ask: Call<Q>, limit: Option<nat>): Outcome {
    match Reply(tape, [sync], 0)
    case Unlocked(until) => Granted(until)
    case Failure => ApiError
    case Locked =>
      var (waited, polls) := WaitInside(tape, sync, ask, limit);
      if waited.Granted? then ReadGrant(tape, sync, ask, polls) else waited
  }

  function EnsureRecording<Q>(sync: Call<Q>, ask: Call<Q>, locked: nat, unlocked: nat, until: nat): Tape<Q> {
    [Keep(sync, Locked), Keep(sync, Locked), Keep(ask, Locked)]
    + seq(locked, _ => Keep(sync, Locked)) + seq(unlocked, _ => Keep(sync, Unlocked(until)))
  }

  lemma EnsureReplyInOrder<Q(!new)>(sync: Call<Q>, ask: Call<Q>, locked: nat, unlocked: nat, until: nat,
                             calls: seq<Call<Q>>, j: nat)
    requires j < |calls| <= 3 + locked + unlocked && calls == EnsureCalls(sync, ask, locked + unlocked)[..|calls|]
    ensures Reply(EnsureRecording(sync, ask, locked, unlocked, until), calls, j)
         == EnsureRecording(sync, ask, locked, unlocked, until)[j].reply
  {
    var tape, all := EnsureRecording(sync, ask, locked, unlocked, until), EnsureCalls(sync, ask, locked + unlocked);
    assert KeysOf(tape) == all;
    assert calls[..j] == all[..j] && calls[j] == all[j];
    ReplayInOrder(tape, j);
  }

  /** With every record used, one call more finds nothing. */
  lemma ReplyAfterAll<Q(!new)>(tape: Tape<Q>, calls: seq<Call<Q>>)
    requires Recorded(tape) && |calls| == |tape| + 1 && calls[..|tape|] == KeysOf(tape)
    ensures Reply(tape, calls, |tape|) == Failure
  {
    var ks := KeysOf(tape);
    NothingUnused(tape, ks);
    UnusedNothing(tape, ConsumedBy(tape, ks));
  }

  /** The replies up to the grant come in recorded order. */
  lemma EnsurePolls<Q(!new)>(sync: Call<Q>, ask: Call<Q>, locked: nat, unlocked: nat, until: nat, limit: Option<nat>)
    requires unlocked > 0 && (limit.Some? ==> locked <= LastPoll(limit.value))
    ensures var answers := EnsureReplies(EnsureRecording(sync, ask, locked, unlocked, until), sync, ask);
      Ending(answers, limit) == Granted(until) && Polls(answers, limit) == locked + 1
  {
    var tape := EnsureRecording(sync, ask, locked, unlocked, until);
    var answers := EnsureReplies(tape, sync, ask);
    forall k | 0 <= k <= locked ensures answers[k] == tape[k + 3].reply {
      assert EnsureCalls(sync, ask, k + 1) == EnsureCalls(sync, ask, locked + unlocked)[..k + 4];
      EnsureReplyInOrder(sync, ask, locked, unlocked, until, EnsureCalls(sync, ask, k + 1), k + 3);
    }
    FirstReplyIs(answers, locked);
  }

  lemma LastSync<Q(!new)>(sync: Call<Q>, ask: Call<Q>, locked: nat, unlocked: nat, until: nat)
    requires 1 <= unlocked <= 2
    ensures Reply(EnsureRecording(sync, ask, locked, unlocked, until), EnsureCalls(sync, ask, locked + 2), locked + 4)
         == if unlocked == 2 then Unlocked(until) else Failure
  {
    var tape, calls := EnsureRecording(sync, ask, locked, unlocked, until), EnsureCalls(sync, ask, locked + 2);
    if unlocked == 2 {
      EnsureReplyInOrder(sync, ask, locked, unlocked, until, calls, locked + 4);
    } else {
      assert KeysOf(tape) == EnsureCalls(sync, ask, locked + 1) == calls[..|tape|];
      ReplyAfterAll(tape, calls);
    }
  }

  lemma FirstSyncs<Q(!new)>(sync: Call<Q>, ask: Call<Q>, locked: nat, unlocked: nat, until: nat)
    requires 1 <= unlocked
    ensures var tape := EnsureRecording(sync, ask, locked, unlocked, until);
      Reply(tape, [sync], 0) == Reply(tape, [sync, sync], 1) == Reply(tape, [sync, sync, ask], 2) == Locked
  {
    EnsureReplyInOrder(sync, ask, locked, unlocked, until, [sync], 0);
    EnsureReplyInOrder(sync, ask, locked, unlocked, until, [sync, sync], 1);
    EnsureReplyInOrder(sync, ask, locked, unlocked, until, [sync, sync, ask], 2);
  }

  /** `ensure` replays a recording exactly when it still has an answer for the `Sync` after the grant. */
  lemma EnsureReplays<Q(!new)>(sync: Call<Q>, ask: Call<Q>, locked: nat, unlocked: nat, until: nat, limit: Option<nat>)
    requires 1 <= unlocked <= 2 && (limit.Some? ==> locked <= LastPoll(limit.value))
    ensures Ensure(EnsureRecording(sync, ask, locked, unlocked, until), sync, ask, limit) == Granted(until) <==>
        unlocked == 2
  {
    var tape := EnsureRecording(sync, ask, locked, unlocked, until);
    FirstSyncs(sync, ask, locked, unlocked, until);
    assert WaitInside(tape, sync, ask, limit) == (Granted(until), locked + 1) by {
      EnsurePolls(sync, ask, locked, unlocked, until, limit);
    }
    assert ReadGrant(tape, sync, ask, locked + 1) == if unlocked == 2 then Granted(until) else ApiError by {
      LastSync(sync, ask, locked, unlocked, until);
    }
  }

  lemma CollapseEnsure<Q(!new)>(sync: Call<Q>, ask: Call<Q>, locked: nat, until: nat, methods: seq<string>)
    requires Declared(methods, sync.method_) && !Declared(methods, ask.method_)
    ensures Collapsed(EnsureRecording(sync, ask, locked, 2, until), methods)
         == if locked == 0 then EnsureRecording(sync, ask, 0, 2, until) else EnsureRecording(sync, ask, 1, 1, until)
  {
    var tape := EnsureRecording(sync, ask, locked, 2, until);
    forall i | 3 <= i < |tape| ensures tape[i].method_ == sync.method_ {}
    EnsureHead(sync, ask, locked, until, methods);
    RunLeavesEnds(tape, methods, 3, |tape|);
  }

  /** The two syncs before the request and the request itself all stay. */
  lemma EnsureHead<Q(!new)>(sync: Call<Q>, ask: Call<Q>, locked: nat, until: nat, methods: seq<string>)
    requires Declared(methods, sync.method_) && !Declared(methods, ask.method_)
    ensures var tape := EnsureRecording(sync, ask, locked, 2, until);
      Survivors(tape, methods, 3) == tape[..3]
  {
    hide Declared;
    var tape := EnsureRecording(sync, ask, locked, 2, until);
    RunLeavesEnds(tape, methods, 0, 2);
    assert Survivors(tape, methods, 0) == [];
    assert Survivor(tape, methods, 2) == [tape[2]];
    assert Survivors(tape, methods, 3) == tape[..2] + [tape[2]];
  }

  /**
   * A command that goes on after the grant is different: its recording, collapsed, replays exactly when
   * the first poll was already granted, so that the run had nothing to drop.
   */
  lemma CollapsedEnsure<Q(!new)>(sync: Call<Q>, ask: Call<Q>, locked: nat, until: nat, limit: Option<nat>,
                          methods: seq<string>)
    requires Declared(methods, sync.method_) && !Declared(methods, ask.method_)
    requires limit.Some? ==> locked <= LastPoll(limit.value)
    ensures var tape := EnsureRecording(sync, ask, locked, 2, until);
      && Ensure(tape, sync, ask, limit) == Granted(until)
      && (Ensure(Collapsed(tape, methods), sync, ask, limit) == Granted(until) <==> locked == 0)
  {
    EnsureReplays(sync, ask, locked, 2, until, limit);
    CollapseEnsure(sync, ask, locked, until, methods);
    EnsureReplays(sync, ask, if locked == 0 then 0 else 1, if locked == 0 then 2 else 1, until, limit);
  }
}
