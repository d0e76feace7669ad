/** "Confirm every access": reading through a strict slot, lifecycle.rs:326-348 and unlock.rs:59-71. */
module StrictSlot {
  import opened Wrappers

  /** The backend's view of one account: which sessions have an unlock served, and which are strict. */
  datatype Account = Account(unlocked: map<nat, nat>, strict: set<nat>)

  datatype Event =
    | Approve(session: nat, until: nat)
    | Lapse(session: nat)
    | SetStrict(session: nat, strict: bool)
    | Get(session: nat, attempt: Attempt)

  /** How one `get` goes: the approval it waited for, whether it found its login, whether `finish` got through. */
  datatype Attempt = Attempt(approval: Option<nat>, found: bool, finishes: bool)

  /** A locked session asks the phone and waits for the approval. */
  function Ensured(a: Account, session: nat, approval: Option<nat>): Account {
    if session !in a.unlocked && approval.Some? then a.(unlocked := a.unlocked[session := approval.value]) else a
  }

  predicate Succeeds(a: Account, e: Event) {
    e.Get? && e.session in Ensured(a, e.session, e.attempt.approval).unlocked && e.attempt.found
  }

  function Next(a: Account, e: Event): Account {
    match e
    case Approve(session, until) => a.(unlocked := a.unlocked[session := until])
    case Lapse(session) => a.(unlocked := a.unlocked - {session})
    case SetStrict(session, strict) => a.(strict := if strict then a.strict + {session} else a.strict - {session})
    case Get(session, attempt) =>
      var ensured := Ensured(a, session, attempt.approval);
      if Succeeds(a, e) && attempt.finishes && session in a.strict
      then ensured.(unlocked := ensured.unlocked - {session})
      else ensured
  }

  function Run(a: Account, events: seq<Event>): Account {
    if events == [] then a else Next(Run(a, events[..|events| - 1]), events[|events| - 1])
  }

  class Backend {
    var account: Account

    constructor (a: Account)
      ensures account == a
    {
      account := a;
    }

    /** Recover the seed, asking the phone if the session is locked. */
    method Ensure(session: nat, approval: Option<nat>) returns (ok: bool)
      modifies this
      ensures account == Ensured(old(account), session, approval)
      ensures ok <==> session in account.unlocked
    {
      if session in account.unlocked {
        return true;
      }
      if approval == None {
        return false;
      }
      account := account.(unlocked := account.unlocked[session := approval.value]);
      ok := true;
    }

    /** End a command: only a strict slot's own unlock is dropped, and a call that fails is only reported. */
    method Finish(session: nat, finishes: bool)
      modifies this
      ensures session in account.unlocked <==>
        session in old(account).unlocked && !(finishes && session in account.strict)
      ensures account.strict == old(account).strict
      ensures account.unlocked == old(account).unlocked
           || account.unlocked == old(account).unlocked - {session}
    {
      if finishes && session in account.strict {
        account := account.(unlocked := account.unlocked - {session});
      }
    }

    method Read(session: nat, attempt: Attempt) returns (ok: bool)
      modifies this
      ensures account == Next(old(account), Get(session, attempt))
      ensures ok == Succeeds(old(account), Get(session, attempt))
      ensures ok <==> attempt.found && (session in old(account).unlocked || attempt.approval.Some?)
      ensures session in account.unlocked <==>
        && (session in old(account).unlocked || attempt.approval.Some?)
        && !(attempt.found && attempt.finishes && session in old(account).strict)
    {
      ok := Ensure(session, attempt.approval);
      if !ok || !attempt.found {
        return false;
      }
      Finish(session, attempt.finishes);
    }
  }

  /** A fresh approval of the session: given on its own, or while a `get` on a locked session waits for it. */
  predicate Grants(a: Account, e: Event, session: nat) {
    || (e.Approve? && e.session == session)
    || (e.Get? && e.session == session && session !in a.unlocked && e.attempt.approval.Some?)
  }

  lemma RunNext(a: Account, events: seq<Event>, i: nat)
    requires i < |events|
    ensures Run(a, events[..i + 1]) == Next(Run(a, events[..i]), events[i])
  {
    assert events[..i + 1][..i] == events[..i];
  }

  /** Without a fresh approval a locked session stays locked. */
  lemma StaysLocked(a: Account, e: Event, session: nat)
    requires session !in a.unlocked && !Grants(a, e, session)
    ensures session !in Next(a, e).unlocked
  {
  }

  /** On a locked session a `get` succeeds only by an approval of its own. */
  lemma AskedFirst(a: Account, e: Event)
    requires Succeeds(a, e) && e.session !in a.unlocked
    ensures Grants(a, e, e.session)
  {
  }

  /** A successful `get` on a strict slot whose `finish` gets through ends with no unlock served. */
  lemma GetRelocks(a: Account, e: Event)
    requires Succeeds(a, e) && e.attempt.finishes && e.session in a.strict
    ensures e.session !in Next(a, e).unlocked
  {
  }

  /** What ends an unlock: the window running out, or a successful `get` on a session strict at that time. */
  predicate Locks(a: Account, e: Event, session: nat) {
    || (e.Lapse? && e.session == session)
    || (e.Get? && e.session == session && Succeeds(a, e) && e.attempt.finishes && session in a.strict)
  }

  lemma NextUnlocked(a: Account, e: Event, session: nat)
    ensures session in Next(a, e).unlocked <==>
      !Locks(a, e, session) && (session in a.unlocked || Grants(a, e, session))
  {
  }

  /** What an event does to the deadline served: only a fresh approval moves it. Other sessions are left alone. */
  lemma NextUntil(a: Account, e: Event, session: nat)
    requires session in Next(a, e).unlocked
    ensures Next(a, e).unlocked[session] ==
      if e.Approve? && e.session == session then e.until
      else if e.Get? && e.session == session && session !in a.unlocked then e.attempt.approval.value
      else a.unlocked[session]
  {
  }

  /** A session is strict as it was last set, or as it started if it was not set. */
  lemma {:induction false} StrictMeaning(a: Account, events: seq<Event>, session: nat)
    ensures session in Run(a, events).strict <==>
      || (session in a.strict
          && forall m :: 0 <= m < |events| ==> !(events[m].SetStrict? && events[m].session == session))
      || exists k :: 0 <= k < |events| && events[k] == SetStrict(session, true)
                     && forall m :: k < m < |events| ==> !(events[m].SetStrict? && events[m].session == session)
  {
    hide Ensured, Succeeds;
    if events != [] {
      var n := |events| - 1;
      StrictMeaning(a, events[..n], session);
      assert forall m :: 0 <= m < n ==> events[..n][m] == events[m];
      StrictNext(Run(a, events[..n]), events[n], session);
      hide Run, Next;
    }
  }

  lemma StrictNext(a: Account, e: Event, session: nat)
    ensures session in Next(a, e).strict <==>
      if e.SetStrict? && e.session == session then e.strict else session in a.strict
  {
  }

  /** No event from `k` on ends the session's unlock. */
  ghost predicate Lasts(a: Account, events: seq<Event>, session: nat, k: nat) {
    forall m :: k <= m < |events| ==> !Locks(Run(a, events[..m]), events[m], session)
  }

  /** A fresh approval at `k` that nothing has ended since. */
  ghost predicate GrantLasts(a: Account, events: seq<Event>, session: nat, k: nat) {
    k < |events| && Grants(Run(a, events[..k]), events[k], session) && Lasts(a, events, session, k)
  }

  lemma LastsInit(a: Account, events: seq<Event>, session: nat, k: nat)
    requires events != [] && k < |events|
    ensures var n := |events| - 1;
      Lasts(a, events, session, k) <==>
        Lasts(a, events[..n], session, k) && !Locks(Run(a, events[..n]), events[n], session)
  {
    hide Run, Locks;
    var n := |events| - 1;
    forall m | 0 <= m < n ensures events[..n][..m] == events[..m] && events[..n][m] == events[m] {}
    if Lasts(a, events[..n], session, k) && !Locks(Run(a, events[..n]), events[n], session) {
      forall m | k <= m < |events| ensures !Locks(Run(a, events[..m]), events[m], session) {
        if m < n { assert !Locks(Run(a, events[..n][..m]), events[..n][m], session); }
      }
    }
  }

  lemma GrantLastsInit(a: Account, events: seq<Event>, session: nat, k: nat)
    requires events != []
    ensures var n := |events| - 1;
      var before := Run(a, events[..n]);
      GrantLasts(a, events, session, k) <==>
        && !Locks(before, events[n], session)
        && (GrantLasts(a, events[..n], session, k) || (k == n && Grants(before, events[n], session)))
  {
    hide Run, Locks, Grants;
    var n := |events| - 1;
    if k < n {
      LastsInit(a, events, session, k);
      assert events[..n][..k] == events[..k] && events[..n][k] == events[k];
    } else if k == n {
      LastsInit(a, events, session, n);
      assert Lasts(a, events[..n], session, n);
    }
  }

  /**
   * Over every run, an unlock is being served exactly when the session started with one that nothing has
   * ended, or some fresh approval has been ended by nothing since.
   */
  lemma {:induction false} UnlockedMeaning(a: Account, events: seq<Event>, session: nat)
    ensures session in Run(a, events).unlocked <==>
      || (session in a.unlocked && Lasts(a, events, session, 0))
      || exists k: nat :: GrantLasts(a, events, session, k)
  {
    if events != [] {
      var n := |events| - 1;
      var init, before := events[..n], Run(a, events[..n]);
      UnlockedMeaning(a, init, session);
      NextUnlocked(before, events[n], session);
      LastsInit(a, events, session, 0);
      GrantLastsInit(a, events, session, n);
      if k: nat :| GrantLasts(a, init, session, k) { GrantLastsInit(a, events, session, k); }
      if k: nat :| GrantLasts(a, events, session, k) { GrantLastsInit(a, events, session, k); }
    }
  }

  /** The deadline of an unlock that is served is the one given by the last fresh approval, if there was one. */
  lemma {:induction false} DeadlineMeaning(a: Account, events: seq<Event>, session: nat) returns (k: int)
    requires session in Run(a, events).unlocked
    ensures k < |events|
    ensures k < 0 ==> session in a.unlocked && Run(a, events).unlocked[session] == a.unlocked[session]
    ensures k >= 0 ==>
      && Grants(Run(a, events[..k]), events[k], session)
      && Run(a, events).unlocked[session]
         == if events[k].Approve? then events[k].until else events[k].attempt.approval.value
    ensures forall m :: 0 <= m < |events| && k < m ==> !Grants(Run(a, events[..m]), events[m], session)
  {
    if events == [] {
      return -1;
    }
    var n := |events| - 1;
    var before := Run(a, events[..n]);
    NextUntil(before, events[n], session);
    NextUnlocked(before, events[n], session);
    if Grants(before, events[n], session) {
      return n;
    }
    hide Run, Next, Locks;
    k := DeadlineMeaning(a, events[..n], session);
    forall m | 0 <= m < n ensures events[..n][..m] == events[..m] && events[..n][m] == events[m] {}
  }

  /** From a locked state on, a `get` that succeeds has a fresh approval before it or in it. */
  lemma {:induction false} GrantBefore(a: Account, events: seq<Event>, session: nat, i: nat, j: nat) returns (k: nat)
    requires i <= j < |events| && session !in Run(a, events[..i]).unlocked
    requires events[j].Get? && events[j].session == session && Succeeds(Run(a, events[..j]), events[j])
    ensures i <= k <= j && Grants(Run(a, events[..k]), events[k], session)
    decreases j - i
  {
    hide Run, Next, Grants, Succeeds;
    var before := Run(a, events[..i]);
    if Grants(before, events[i], session) {
      return i;
    }
    if i == j {
      AskedFirst(before, events[i]);
    } else {
      StaysLocked(before, events[i], session);
      RunNext(a, events, i);
      k := GrantBefore(a, events, session, i + 1, j);
    }
  }

  /**
   * In every run, policy changes included, after such a `get` the next one that succeeds has a fresh approval
   * before it.
   */
  lemma FreshApprovalBetween(a: Account, events: seq<Event>, session: nat, i: nat, j: nat) returns (k: nat)
    requires i < j < |events|
    requires events[i].Get? && events[i].session == session && events[j].Get? && events[j].session == session
    requires Succeeds(Run(a, events[..i]), events[i]) && events[i].attempt.finishes
    requires session in Run(a, events[..i]).strict
    requires Succeeds(Run(a, events[..j]), events[j])
    ensures i < k <= j && Grants(Run(a, events[..k]), events[k], session)
  {
    hide Run, Next, Grants, Succeeds;
    GetRelocks(Run(a, events[..i]), events[i]);
    RunNext(a, events, i);
    k := GrantBefore(a, events, session, i + 1, j);
  }
}
