/** What every run of slot commands keeps, with a crash possible between any two keychain writes. */
module SlotRuns {
  import opened Wrappers
  import opened Slots

  // ---- the invariant

  /** A token is only ever beside the private key and the id of the same session. */
  predicate Complete(items: Items, slot: Slot) {
    slot.Key(AccessToken) in items ==>
      && Adoptable(items, slot)
      && items[slot.Key(SessionPrivateKey)].session == items[slot.Key(AccessToken)].session
      && items[slot.Key(SessionId)].session == items[slot.Key(AccessToken)].session
  }

  predicate NoDuplicates(names: seq<string>) { forall i, j :: 0 <= i < j < |names| ==> names[i] != names[j] }

  ghost predicate Consistent(items: Items) {
    && (forall account :: Complete(items, Slot(account)))
    && NoDuplicates(Names(items))
  }

  // ---- which single writes keep it

  /** A key or id may be written where there is no token; a token where both its companions are. */
  predicate Safe(items: Items, w: Write) {
    match w
    case Set(key, item) =>
      var slot := Slot(key.account);
      (match key.secret
       case AccessToken =>
         && item.Token?
         && slot.Key(SessionPrivateKey) in items && items[slot.Key(SessionPrivateKey)] == PrivateKey(item.session)
         && slot.Key(SessionId) in items && items[slot.Key(SessionId)] == Id(item.session)
       case SessionPrivateKey => slot.Key(AccessToken) !in items
       case SessionId => slot.Key(AccessToken) !in items
       case SlotIndex => key == INDEX_KEY && item.Index? && NoDuplicates(item.names))
    case Delete(key) =>
      key.secret == AccessToken || (key.secret != SlotIndex && Slot(key.account).Key(AccessToken) !in items)
  }

  lemma SafeWrite(items: Items, w: Write)
    requires Consistent(items) && Safe(items, w)
    ensures Consistent(Apply(items, w))
  {
    forall account ensures Complete(Apply(items, w), Slot(account)) {
      assert Complete(items, Slot(account));
    }
  }

  /** Every prefix of a plan whose writes are each safe when their turn comes keeps the invariant. */
  lemma {:induction false} SafePlan(items: Items, plan: seq<Write>, done: nat)
    requires Consistent(items) && done <= |plan|
    requires forall i :: 0 <= i < |plan| ==> Safe(ApplyAll(items, plan[..i]), plan[i])
    ensures Consistent(ApplyAll(items, plan[..done]))
  {
    if done > 0 {
      SafePlan(items, plan, done - 1);
      ApplyOneMore(items, plan, done - 1);
      SafeWrite(ApplyAll(items, plan[..done - 1]), plan[done - 1]);
    }
  }

  lemma SafeTwo(items: Items, a: seq<Write>, b: seq<Write>)
    requires forall i :: 0 <= i < |a| ==> Safe(ApplyAll(items, a[..i]), a[i])
    requires forall i :: 0 <= i < |b| ==> Safe(ApplyAll(ApplyAll(items, a), b[..i]), b[i])
    ensures forall i :: 0 <= i < |a + b| ==> Safe(ApplyAll(items, (a + b)[..i]), (a + b)[i])
  {
    forall i | 0 <= i < |a + b| ensures Safe(ApplyAll(items, (a + b)[..i]), (a + b)[i]) {
      if i < |a| {
        assert (a + b)[..i] == a[..i];
      } else {
        assert (a + b)[..i] == a + b[..i - |a|];
        ApplyTwo(items, a, b[..i - |a|]);
      }
    }
  }

  // ---- each command's plan

  lemma Stored(items: Items, slot: Slot, session: nat)
    ensures var plan, key, id := StorePlan(slot, session), slot.Key(SessionPrivateKey), slot.Key(SessionId);
      && ApplyAll(items, plan[..1]) == items[key := PrivateKey(session)]
      && ApplyAll(items, plan[..2]) == items[key := PrivateKey(session)][id := Id(session)]
      && ApplyAll(items, plan)
         == items[key := PrivateKey(session)][id := Id(session)][slot.Key(AccessToken) := Token(session, 0)]
  {
    var plan := StorePlan(slot, session);
    ApplyOneMore(items, plan, 0);
    ApplyOneMore(items, plan, 1);
    ApplyOneMore(items, plan, 2);
    assert plan[..3] == plan;
  }

  lemma StoreSafe(items: Items, slot: Slot, session: nat)
    requires !Exists(items, slot)
    ensures var plan := StorePlan(slot, session);
      forall i :: 0 <= i < |plan| ==> Safe(ApplyAll(items, plan[..i]), plan[i])
  {
    Stored(items, slot, session);
  }

  lemma IndexAddSafe(items: Items, slot: Slot, answers: Answers)
    requires NoDuplicates(Names(items))
    ensures var plan := IndexAddPlan(items, slot, answers);
      forall any, i :: 0 <= i < |plan| ==> Safe(any, plan[i])
  {
  }

  lemma {:induction false} WithoutDuplicates(names: seq<string>, name: string)
    ensures NoDuplicates(names) ==> NoDuplicates(Without(names, name))
  {
    WithoutMeaning(names, name);
    if names != [] {
      var init, last := names[..|names| - 1], names[|names| - 1];
      WithoutDuplicates(init, name);
      WithoutMeaning(init, name);
      assert names == init + [last];
      assert NoDuplicates(names) ==> last !in init;
    }
  }

  lemma ClearSafe(items: Items, slot: Slot, answers: Answers)
    requires NoDuplicates(Names(items))
    ensures var plan := ClearPlan(items, slot, answers);
      forall i :: 0 <= i < |plan| ==> Safe(ApplyAll(items, plan[..i]), plan[i])
  {
    var plan := ClearPlan(items, slot, answers);
    WithoutDuplicates(SeenNames(items, answers), slot.Name());
    ApplyOneMore(items, plan, 0);
    ApplyOneMore(items, plan, 1);
  }

  /** A refreshed token belongs where it goes: the slot it was read from, or one with the key and id of its session. */
  predicate Belongs(items: Items, slot: Slot, to: RefreshTo)
    requires Usable(items, slot)
  {
    var target, session := RefreshTarget(to, slot), items[slot.Key(AccessToken)].session;
    || target == slot
    || (&& target.Key(SessionPrivateKey) in items && items[target.Key(SessionPrivateKey)] == PrivateKey(session)
        && target.Key(SessionId) in items && items[target.Key(SessionId)] == Id(session))
  }

  lemma UseSafe(items: Items, slot: Slot, refreshed: Option<nat>, to: RefreshTo, answers: Answers)
    requires Consistent(items)
    requires refreshed.Some? && Usable(items, slot) ==> Belongs(items, slot, to)
    ensures var plan := UsePlan(items, slot, refreshed, to, answers);
      forall i :: 0 <= i < |plan| ==> Safe(ApplyAll(items, plan[..i]), plan[i])
  {
    assert Complete(items, Slot(slot.account));
  }

  // ---- runs

  datatype Command =
    | Create(slot: Slot, pairing: Pairing)
    | Use(slot: Slot, refreshed: Option<nat>)
    | Remove(slot: Slot, force: bool, retirement: Retirement)

  /** A command, which reads were answered, and how many of its writes went through before it, or the machine, ended. */
  datatype Event = Event(command: Command, answers: Answers, done: nat)

  function PlanOf(items: Items, e: Event, to: RefreshTo): seq<Write> {
    match e.command
    case Create(slot, pairing) => CreatePlan(items, slot, pairing, e.answers)
    case Use(slot, refreshed) => UsePlan(items, slot, refreshed, to, e.answers)
    case Remove(slot, force, retirement) => RemovePlan(items, slot, force, retirement, to, e.answers)
  }

  function Done(items: Items, e: Event, to: RefreshTo): nat {
    var plan := PlanOf(items, e, to);
    if e.done <= |plan| then e.done else |plan|
  }

  function Happen(items: Items, e: Event, to: RefreshTo): Items {
    ApplyAll(items, PlanOf(items, e, to)[..Done(items, e, to)])
  }

  function Run(items: Items, events: seq<Event>, to: RefreshTo): Items {
    if events == [] then items
    else Happen(Run(items, events[..|events| - 1], to), events[|events| - 1], to)
  }

  /** A create that was refused the read of an existing token, and stopped between its key and its token. */
  predicate HalfOverwrites(items: Items, slot: Slot, pairing: Pairing, e: Event) {
    && Exists(items, slot) && items[slot.Key(AccessToken)].Token?
    && !e.answers.slot && pairing.session.Some? && 1 <= e.done <= 2
    && items[slot.Key(AccessToken)].session != pairing.session.value
  }

  /** A refreshed token is stored by this command where it does not belong. */
  predicate Misplaces(items: Items, slot: Slot, refreshed: Option<nat>, e: Event, to: RefreshTo) {
    && e.answers.slot && Usable(items, slot) && refreshed.Some? && e.done >= 1
    && !Belongs(items, slot, to)
  }

  /** Neither of the two things that go wrong. */
  predicate Harmless(items: Items, e: Event, to: RefreshTo) {
    match e.command
    case Create(slot, pairing) => !HalfOverwrites(items, slot, pairing, e)
    case Use(slot, refreshed) => !Misplaces(items, slot, refreshed, e, to)
    case Remove(slot, _, r) => !(Adoptable(items, slot) && Misplaces(items, slot, r.refreshed, e, to))
  }

  lemma SafeEvent(items: Items, e: Event, to: RefreshTo)
    requires Consistent(items)
    requires var plan := PlanOf(items, e, to);
      forall i :: 0 <= i < |plan| ==> Safe(ApplyAll(items, plan[..i]), plan[i])
    ensures Consistent(Happen(items, e, to))
  {
    SafePlan(items, PlanOf(items, e, to), Done(items, e, to));
  }

  /** Over an existing token, the new key and id tell unless they are of the token's own session. */
  lemma OverwriteEvent(items: Items, slot: Slot, pairing: Pairing, e: Event, to: RefreshTo)
    requires Consistent(items) && e.command == Create(slot, pairing)
    requires Exists(items, slot) && !e.answers.slot && pairing.session.Some?
    ensures Consistent(Happen(items, e, to)) <==> !HalfOverwrites(items, slot, pairing, e)
  {
    var session, done := pairing.session.value, Done(items, e, to);
    var plan, store := PlanOf(items, e, to), StorePlan(slot, session);
    var add := plan[3..];
    assert Complete(items, Slot(slot.account));
    assert plan == store + add && |store| == 3;
    Overwritten(items, slot, session);
    hide Consistent, Complete, PlanOf, StorePlan;
    if done == 0 {
      assert plan[..0] == [];
    } else if done <= 2 {
      assert plan[..done] == store[..done];
    } else {
      AddedAfter(items, ApplyAll(items, store), slot, pairing, e.answers, add, done - 3);
      assert plan[..done] == store + add[..done - 3];
      ApplyTwo(items, store, add[..done - 3]);
    }
  }

  lemma SetKeeps(start: Items, items: Items, slot: Slot, secret: StoredSecret, item: Item)
    requires secret != SlotIndex && OthersKept(start, items, slot)
    ensures OthersKept(start, items[slot.Key(secret) := item], slot)
    ensures Names(items[slot.Key(secret) := item]) == Names(items)
  {
  }

  lemma Overwritten(items: Items, slot: Slot, session: nat)
    requires Consistent(items) && Exists(items, slot)
    ensures items[slot.Key(AccessToken)].Token?
    ensures var plan, same := StorePlan(slot, session), items[slot.Key(AccessToken)].session == session;
      && (Consistent(ApplyAll(items, plan[..1])) <==> same)
      && (Consistent(ApplyAll(items, plan[..2])) <==> same)
      && Consistent(ApplyAll(items, plan))
  {
    var plan := StorePlan(slot, session);
    assert Complete(items, Slot(slot.account));
    Stored(items, slot, session);
    assert OthersKept(items, items, slot);
    hide Consistent, ApplyAll, StorePlan, OthersKept, Names;
    var one := items[slot.Key(SessionPrivateKey) := PrivateKey(session)];
    var two := one[slot.Key(SessionId) := Id(session)];
    var three := two[slot.Key(AccessToken) := Token(session, 0)];
    SetKeeps(items, items, slot, SessionPrivateKey, PrivateKey(session));
    SetKeeps(items, one, slot, SessionId, Id(session));
    SetKeeps(items, two, slot, AccessToken, Token(session, 0));
    OthersComplete(items, one, slot);
    OthersComplete(items, two, slot);
    OthersComplete(items, three, slot);
  }

  lemma AddedAfter(items: Items, stored: Items, slot: Slot, p: Pairing, answers: Answers, add: seq<Write>, done: nat)
    requires NoDuplicates(Names(items)) && Consistent(stored)
    requires add == if p.registered && p.policyWritten then IndexAddPlan(items, slot, answers) else []
    requires done <= |add|
    ensures Consistent(ApplyAll(stored, add[..done]))
  {
    IndexAddSafe(items, slot, answers);
    SafePlan(stored, add, done);
  }

  /** Items that differ in one slot only are consistent when that slot is. */
  lemma OthersComplete(before: Items, after: Items, slot: Slot)
    requires Consistent(before) && OthersKept(before, after, slot) && Names(after) == Names(before)
    ensures Consistent(after) <==> Complete(after, Slot(slot.account))
  {
    forall account | account != slot.account ensures Complete(after, Slot(account)) {
      assert Complete(before, Slot(account));
      assert forall secret :: secret != SlotIndex ==>
        (SecretKey(account, secret) in after <==> SecretKey(account, secret) in before);
    }
  }

  /** The items of every other slot. */
  predicate OthersKept(before: Items, after: Items, slot: Slot) {
    forall key :: key in before.Keys + after.Keys && key.account != slot.account && key != INDEX_KEY ==>
      key in before && key in after && before[key] == after[key]
  }

  /** What no write of a plan addresses stays. */
  lemma {:induction false} Unaddressed(items: Items, plan: seq<Write>, key: SecretKey)
    requires forall i :: 0 <= i < |plan| ==> plan[i].key != key
    ensures key in ApplyAll(items, plan) <==> key in items
    ensures key in items ==> ApplyAll(items, plan)[key] == items[key]
  {
    if plan != [] { Unaddressed(items, plan[..|plan| - 1], key); }
  }

  /** A token in a slot that has no such key and id beside it stays there whatever is cleared elsewhere. */
  lemma MisplacedStays(items: Items, slot: Slot, refreshed: Option<nat>, e: Event, to: RefreshTo, plan: seq<Write>)
    requires Consistent(items) && Misplaces(items, slot, refreshed, e, to)
    requires plan != [] && plan[0] == UsePlan(items, slot, refreshed, to, e.answers)[0]
    requires forall i :: 1 <= i < |plan| ==> plan[i].key.account == slot.account || plan[i].key == INDEX_KEY
    ensures !Consistent(ApplyAll(items, plan))
  {
    var target := RefreshTarget(to, slot);
    var after := ApplyAll(items, plan);
    assert plan == plan[..1] + plan[1..] && plan[..1][..0] == [];
    ApplyTwo(items, plan[..1], plan[1..]);
    var used := ApplyAll(items, plan[..1]);
    assert used == Apply(items, plan[0]);
    Unaddressed(used, plan[1..], target.Key(AccessToken));
    Unaddressed(used, plan[1..], target.Key(SessionPrivateKey));
    Unaddressed(used, plan[1..], target.Key(SessionId));
    assert !Complete(after, Slot(target.account));
  }

  lemma RemoveSafe(items: Items, slot: Slot, force: bool, r: Retirement, to: RefreshTo, answers: Answers)
    requires Consistent(items)
    requires Adopted(items, slot, answers) && r.refreshed.Some? ==> Belongs(items, slot, to)
    ensures var plan := RemovePlan(items, slot, force, r, to, answers);
      forall i :: 0 <= i < |plan| ==> Safe(ApplyAll(items, plan[..i]), plan[i])
  {
    ClearSafe(items, slot, answers);
    if Adopted(items, slot, answers) {
      var use := UsePlan(items, slot, r.refreshed, to, answers);
      UseSafe(items, slot, r.refreshed, to, answers);
      UseKeepsIndex(items, use);
      ClearSafe(ApplyAll(items, use), slot, answers);
      assert ClearPlan(ApplyAll(items, use), slot, answers) == ClearPlan(items, slot, answers);
      SafeTwo(items, use, if force || (r.tombstoned && r.deleted) then ClearPlan(items, slot, answers) else []);
    }
  }

  lemma RemoveEvent(items: Items, slot: Slot, force: bool, r: Retirement, e: Event, to: RefreshTo)
    requires Consistent(items) && e.command == Remove(slot, force, r)
    ensures Consistent(Happen(items, e, to)) <==> Harmless(items, e, to)
  {
    var plan := PlanOf(items, e, to);
    if e.done == 0 {
      assert plan[..0] == [];
    } else if Harmless(items, e, to) {
      RemoveSafe(items, slot, force, r, to, e.answers);
      SafeEvent(items, e, to);
    } else {
      var part := plan[..Done(items, e, to)];
      assert |UsePlan(items, slot, r.refreshed, to, e.answers)| == 1;
      forall i | 1 <= i < |part| ensures part[i].key.account == slot.account || part[i].key == INDEX_KEY {
        assert part[i] == ClearPlan(items, slot, e.answers)[i - 1];
      }
      MisplacedStays(items, slot, r.refreshed, e, to, part);
    }
  }

  lemma UseEvent(items: Items, slot: Slot, refreshed: Option<nat>, e: Event, to: RefreshTo)
    requires Consistent(items) && e.command == Use(slot, refreshed)
    ensures Consistent(Happen(items, e, to)) <==> Harmless(items, e, to)
  {
    var plan := PlanOf(items, e, to);
    if e.done == 0 || plan == [] {
      assert plan[..0] == [];
    } else if Harmless(items, e, to) {
      UseSafe(items, slot, refreshed, to, e.answers);
      SafeEvent(items, e, to);
    } else {
      assert plan[..Done(items, e, to)] == plan;
      MisplacedStays(items, slot, refreshed, e, to, plan);
    }
  }

  /** One command, crashed anywhere, keeps the invariant exactly when it is harmless. */
  lemma EventConsistent(items: Items, e: Event, to: RefreshTo)
    requires Consistent(items)
    ensures Consistent(Happen(items, e, to)) <==> Harmless(items, e, to)
  {
    match e.command
    case Use(slot, refreshed) => UseEvent(items, slot, refreshed, e, to);
    case Remove(slot, force, r) => RemoveEvent(items, slot, force, r, e, to);
    case Create(slot, pairing) =>
      if SeenToExist(items, slot, e.answers) || pairing.session == None {
        assert PlanOf(items, e, to) == [];
      } else if Exists(items, slot) {
        assert Complete(items, Slot(slot.account));
        OverwriteEvent(items, slot, pairing, e, to);
      } else {
        StoreSafe(items, slot, pairing.session.value);
        IndexAddSafe(items, slot, e.answers);
        SafeTwo(items, StorePlan(slot, pairing.session.value),
                if pairing.registered && pairing.policyWritten then IndexAddPlan(items, slot, e.answers) else []);
        SafeEvent(items, e, to);
      }
  }

  ghost predicate ConsistentThroughout(items: Items, events: seq<Event>, to: RefreshTo) {
    forall k :: 0 <= k <= |events| ==> Consistent(Run(items, events[..k], to))
  }

  ghost predicate HarmlessThroughout(items: Items, events: seq<Event>, to: RefreshTo) {
    forall i :: 0 <= i < |events| ==> Harmless(Run(items, events[..i], to), events[i], to)
  }

  lemma ConsistentInit(items: Items, events: seq<Event>, to: RefreshTo)
    requires events != []
    ensures ConsistentThroughout(items, events, to) <==>
      ConsistentThroughout(items, events[..|events| - 1], to) && Consistent(Run(items, events, to))
  {
    hide Consistent, Run;
    var n := |events| - 1;
    forall k | 0 <= k <= n ensures events[..n][..k] == events[..k] {}
    assert events[..n + 1] == events;
    if ConsistentThroughout(items, events[..n], to) && Consistent(Run(items, events, to)) {
      forall k | 0 <= k <= |events| ensures Consistent(Run(items, events[..k], to)) {
        if k <= n { assert Consistent(Run(items, events[..n][..k], to)); }
      }
    }
  }

  lemma HarmlessInit(items: Items, events: seq<Event>, to: RefreshTo)
    requires events != []
    ensures var n := |events| - 1;
      HarmlessThroughout(items, events, to) <==>
        HarmlessThroughout(items, events[..n], to) && Harmless(Run(items, events[..n], to), events[n], to)
  {
    hide Harmless, Run;
    var n := |events| - 1;
    forall k | 0 <= k < n ensures events[..n][..k] == events[..k] && events[..n][k] == events[k] {}
    if HarmlessThroughout(items, events[..n], to) && Harmless(Run(items, events[..n], to), events[n], to) {
      forall i | 0 <= i < |events| ensures Harmless(Run(items, events[..i], to), events[i], to) {
        if i < n { assert Harmless(Run(items, events[..n][..i], to), events[..n][i], to); }
      }
    }
  }

  /**
   * Over every run, crashed anywhere and with any read refused: a slot with a token has the key and id of the
   * same session, and the index no duplicates, all along, exactly when every event is harmless in its turn.
   */
  lemma {:induction false} RunConsistent(items: Items, events: seq<Event>, to: RefreshTo)
    requires Consistent(items)
    ensures ConsistentThroughout(items, events, to) <==> HarmlessThroughout(items, events, to)
  {
    hide Consistent, Harmless;
    if events != [] {
      var init, last := events[..|events| - 1], events[|events| - 1];
      RunConsistent(items, init, to);
      ConsistentInit(items, events, to);
      HarmlessInit(items, events, to);
      if ConsistentThroughout(items, init, to) {
        assert init[..|init|] == init;
        EventConsistent(Run(items, init, to), last, to);
      }
    }
  }

  /** A keychain that answers what `create` asks, and a token refreshed, if at all, into the slot it was read from. */
  predicate Ordinary(e: Event, to: RefreshTo) {
    match e.command
    case Create(_, _) => e.answers.slot
    case Use(slot, refreshed) => refreshed.Some? ==> RefreshTarget(to, slot) == slot
    case Remove(slot, _, retirement) => retirement.refreshed.Some? ==> RefreshTarget(to, slot) == slot
  }

  /** So runs of ordinary events keep it, wherever they crash. */
  lemma {:induction false} OrdinaryRunsConsistent(items: Items, events: seq<Event>, to: RefreshTo)
    requires Consistent(items) && forall i :: 0 <= i < |events| ==> Ordinary(events[i], to)
    ensures Consistent(Run(items, events, to))
  {
    RunConsistent(items, events, to);
    forall i | 0 <= i < |events| ensures Harmless(Run(items, events[..i], to), events[i], to) {
      assert Ordinary(events[i], to);
    }
    assert ConsistentThroughout(items, events, to);
    assert events[..|events|] == events;
  }

  lemma EmptyConsistent()
    ensures Consistent(map[])
  {
  }

  // ---- the refresh as the code has it

  /**
   * A token refreshed from a slot, written to the default slot, keeps the invariant exactly when that is
   * the same slot or the default slot already holds the key and id of the very same session.
   */
  lemma RefreshToDefault(items: Items, slot: Slot, serial: nat)
    requires Consistent(items) && Exists(items, slot)
    ensures Usable(items, slot)
    ensures Consistent(Happen(items, Event(Use(slot, Some(serial)), ALL_ANSWERED, 1), TheDefaultSlot))
      <==> Belongs(items, slot, TheDefaultSlot)
  {
    assert Complete(items, Slot(slot.account));
    EventConsistent(items, Event(Use(slot, Some(serial)), ALL_ANSWERED, 1), TheDefaultSlot);
  }

  /** A named slot alone on the machine, used once when its token is due, leaves a token with no key. */
  lemma RefreshBreaksInvariant(session: nat) returns (events: seq<Event>)
    ensures forall i :: 0 <= i < |events| ==> events[i].answers == ALL_ANSWERED
    ensures !Consistent(Run(map[], events, TheDefaultSlot))
    ensures Consistent(Run(map[], events, ItsOwnSlot))
  {
    var ci := Slot(Some("ci"));
    var create := CreateWhole(ci, session);
    var use := Event(Use(ci, Some(1)), ALL_ANSWERED, 1);
    events := [create, use];
    var made := Run(map[], [create], TheDefaultSlot);
    CreatedAlone(ci, session, TheDefaultSlot);
    assert events[..1] == [create];
    hide Consistent, Happen, CreateWhole, Harmless;
    EmptyConsistent();
    OrdinaryRunsConsistent(map[], [create], TheDefaultSlot);
    RefreshToDefault(made, ci, 1);
    OrdinaryRunsConsistent(map[], events, ItsOwnSlot);
  }

  function CreateWhole(slot: Slot, session: nat): (e: Event)
    ensures e.command.Create? && e.command.slot == slot && e.answers == ALL_ANSWERED
  {
    Event(Create(slot, Pairing(Some(session), true, true)), ALL_ANSWERED, 4)
  }

  lemma CreatedAlone(slot: Slot, session: nat, to: RefreshTo)
    ensures var made := Run(map[], [CreateWhole(slot, session)], to);
      && Adoptable(made, slot) && made[slot.Key(AccessToken)] == Token(session, 0)
      && OthersKept(map[], made, slot)
  {
    var e := CreateWhole(slot, session);
    var plan := PlanOf(map[], e, to);
    assert [e][..0] == [] && plan[..4] == plan;
    Created(map[], slot, e.command.pairing, ALL_ANSWERED);
  }

  // ---- reads the keychain refuses

  /** A slot is created, and created again with its token's read refused and the machine lost after one write. */
  function CreatedTwice(slot: Slot, session: nat, other: nat): seq<Event> {
    [CreateWhole(slot, session), Event(Create(slot, Pairing(Some(other), true, true)), Answers(false, true), 1)]
  }

  /**
   * A create refused the read of a slot's token, and cut off after its first write, leaves token and key of two
   * sessions.
   */
  lemma RefusedReadBreaksInvariant(slot: Slot, session: nat, other: nat, to: RefreshTo)
    ensures Consistent(Run(map[], CreatedTwice(slot, session, other)[..1], to))
    ensures Consistent(Run(map[], CreatedTwice(slot, session, other), to)) <==> session == other
  {
    var create, events := CreateWhole(slot, session), CreatedTwice(slot, session, other);
    assert events[..1] == [create];
    CreatedAlone(slot, session, to);
    EmptyConsistent();
    hide Consistent, Happen, CreateWhole;
    OrdinaryRunsConsistent(map[], [create], to);
    EventConsistent(Run(map[], [create], to), events[1], to);
  }

  /** What the index holds once a slot is added: the others' names survive exactly when the index could be read. */
  lemma IndexAdded(items: Items, slot: Slot, answers: Answers)
    ensures var after := Names(ApplyAll(items, IndexAddPlan(items, slot, answers)));
      && slot.Name() in after
      && (answers.index && slot.Name() !in Names(items) ==> after == Names(items) + [slot.Name()])
      && ((forall n :: n in Names(items) ==> n in after) <==>
            answers.index || forall n :: n in Names(items) ==> n == slot.Name())
  {
    var plan := IndexAddPlan(items, slot, answers);
    if plan != [] { ApplyOneMore(items, plan, 0); assert plan[..1] == plan; }
    var names := SeenNames(items, answers);
    assert forall n :: n in names + [slot.Name()] <==> n in names || n == slot.Name();
  }

  /** The same once a slot is removed: its name goes, and the others' survive exactly when the index could be read. */
  lemma IndexRemoved(items: Items, slot: Slot, answers: Answers)
    ensures var after := Names(ApplyAll(items, IndexRemovePlan(items, slot, answers)));
      && slot.Name() !in after
      && ((forall n :: n in Names(items) && n != slot.Name() ==> n in after) <==>
            answers.index || forall n :: n in Names(items) ==> n == slot.Name())
  {
    var plan := IndexRemovePlan(items, slot, answers);
    ApplyOneMore(items, plan, 0);
    assert plan[..1] == plan;
    WithoutMeaning(SeenNames(items, answers), slot.Name());
  }

  /** A create whose every write goes through leaves an adoptable, listed slot and touches no other. */
  lemma Created(items: Items, slot: Slot, p: Pairing, answers: Answers)
    requires !SeenToExist(items, slot, answers) && p.session.Some? && p.registered && p.policyWritten
    ensures var made := ApplyAll(items, CreatePlan(items, slot, p, answers));
      && Adoptable(made, slot) && made[slot.Key(AccessToken)] == Token(p.session.value, 0)
      && slot.Name() in Names(made)
      && OthersKept(items, made, slot)
  {
    var store, add := StorePlan(slot, p.session.value), IndexAddPlan(items, slot, answers);
    Stored(items, slot, p.session.value);
    hide StorePlan;
    ApplyTwo(items, store, add);
    if add != [] {
      assert add[..0] == [];
    }
  }

  // ---- what each command has done wherever it is cut

  /** A create writes key, id and token in this order, and nothing at all over a token it can see. */
  lemma CreateSteps(items: Items, slot: Slot, p: Pairing, e: Event, to: RefreshTo)
    requires e.command == Create(slot, p)
    ensures var token, key, id := SecretKey(slot.account, AccessToken), SecretKey(slot.account, SessionPrivateKey),
                                  SecretKey(slot.account, SessionId);
      var after := Happen(items, e, to);
      if (e.answers.slot && token in items) || p.session == None || e.done == 0 then after == items
      else
        var session := p.session.value;
        var one := items[key := PrivateKey(session)];
        var two := one[id := Id(session)];
        var three := two[token := Token(session, 0)];
        if e.done == 1 then after == one
        else if e.done == 2 then after == two
        else if e.done == 3 || !p.registered || !p.policyWritten then after == three
        else
          var seen := if e.answers.index then Names(items) else [];
          after == if slot.Name() in seen then three else three[INDEX_KEY := Index(seen + [slot.Name()])]
  {
    var plan := PlanOf(items, e, to);
    if plan == [] || e.done == 0 {
      assert plan[..0] == [];
    } else {
      var session, done := p.session.value, Done(items, e, to);
      var store := StorePlan(slot, session);
      Stored(items, slot, session);
      assert plan == store + plan[3..];
      if done <= 3 {
        assert plan[..done] == store[..done] && store[..3] == store;
      } else {
        assert plan[..done] == plan && plan[3..][..0] == [];
        ApplyTwo(items, store, plan[3..]);
      }
    }
  }

  /** A use stores one token at most, of the session it was read for. */
  lemma UseSteps(items: Items, slot: Slot, refreshed: Option<nat>, e: Event, to: RefreshTo)
    requires e.command == Use(slot, refreshed)
    ensures var token, key := SecretKey(slot.account, AccessToken), SecretKey(slot.account, SessionPrivateKey);
      var target := SecretKey(if to == TheDefaultSlot then None else slot.account, AccessToken);
      Happen(items, e, to) ==
        if e.answers.slot && refreshed.Some? && e.done >= 1 && token in items && items[token].Token? && key in items
        then items[target := Token(items[token].session, refreshed.value)] else items
  {
    var plan := PlanOf(items, e, to);
    assert plan[..0] == [];
    if Done(items, e, to) == 1 {
      ApplyOneMore(items, plan, 0);
    }
  }

  /**
   * A removal that was not forced, of a session that could not be read, tombstoned and deleted, leaves every item
   * and the index as they were wherever it is cut, but for a refreshed token.
   */
  lemma GentleRemoval(items: Items, slot: Slot, r: Retirement, e: Event, to: RefreshTo)
    requires e.command == Remove(slot, false, r)
    requires !(Adopted(items, slot, e.answers) && r.tombstoned && r.deleted)
    ensures var token := SecretKey(slot.account, AccessToken);
      var target := SecretKey(if to == TheDefaultSlot then None else slot.account, AccessToken);
      Happen(items, e, to) ==
        if Adopted(items, slot, e.answers) && r.refreshed.Some? && e.done >= 1
        then items[target := Token(items[token].session, r.refreshed.value)] else items
    ensures var token := SecretKey(slot.account, AccessToken); token in items ==> token in Happen(items, e, to)
    ensures forall key :: key != SecretKey(if to == TheDefaultSlot then None else slot.account, AccessToken) ==>
      (key in items <==> key in Happen(items, e, to)) && (key in items ==> Happen(items, e, to)[key] == items[key])
  {
    RemoveParts(items, slot, false, r, to, e.answers);
    var plan := PlanOf(items, e, to);
    assert plan[..0] == [];
    if Done(items, e, to) == 1 {
      ApplyOneMore(items, plan, 0);
    }
  }

  /** A removal that goes all the way, forced or with the session gone, leaves nothing of the slot. */
  lemma WholeRemoval(items: Items, slot: Slot, force: bool, r: Retirement, e: Event, to: RefreshTo)
    requires e.command == Remove(slot, force, r) && e.done >= |PlanOf(items, e, to)|
    requires force || (Adopted(items, slot, e.answers) && r.tombstoned && r.deleted)
    ensures Gone(Happen(items, e, to), slot)
    ensures var token := SecretKey(slot.account, AccessToken);
      var target := SecretKey(if to == TheDefaultSlot then None else slot.account, AccessToken);
      var used := if Adopted(items, slot, e.answers) && r.refreshed.Some?
        then items[target := Token(items[token].session, r.refreshed.value)] else items;
      Happen(items, e, to) ==
        (used - {token, SecretKey(slot.account, SessionPrivateKey), SecretKey(slot.account, SessionId)})
        [INDEX_KEY := Index(Without(if e.answers.index then Names(items) else [], slot.Name()))]
  {
    hide Gone;
    var plan := PlanOf(items, e, to);
    RemovalEnds(items, slot, force, r, to, e.answers);
    assert plan[..|plan|] == plan;
    RemoveParts(items, slot, force, r, to, e.answers);
    var use := if Adopted(items, slot, e.answers) then UsePlan(items, slot, r.refreshed, to, e.answers) else [];
    ApplyTwo(items, use, ClearPlan(items, slot, e.answers));
    UseKeepsIndex(items, use);
    ClearPlanSame(items, ApplyAll(items, use), slot, e.answers);
    ClearClears(ApplyAll(items, use), slot, e.answers);
    if use != [] {
      ApplyOneMore(items, use, 0);
      assert use[..1] == use;
    }
  }

  /** Token, key, id, index: what is gone after each write of a clearing. */
  lemma ClearSteps(items: Items, slot: Slot, answers: Answers, n: nat)
    requires n <= |ClearPlan(items, slot, answers)|
    ensures var token, key, id := SecretKey(slot.account, AccessToken), SecretKey(slot.account, SessionPrivateKey),
                                  SecretKey(slot.account, SessionId);
      ApplyAll(items, ClearPlan(items, slot, answers)[..n]) ==
        if n == 0 then items
        else if n == 1 then items - {token}
        else if n == 2 then items - {token, key}
        else if n == 3 then items - {token, key, id}
        else (items - {token, key, id})
             [INDEX_KEY := Index(Without(if answers.index then Names(items) else [], slot.Name()))]
  {
    var plan := ClearPlan(items, slot, answers);
    assert plan[..0] == [];
    if n == 4 {
      assert plan[..4] == plan;
      ClearClears(items, slot, answers);
    } else if n > 0 {
      ApplyOneMore(items, plan, 0);
      if n > 1 { ApplyOneMore(items, plan, 1); }
      if n > 2 { ApplyOneMore(items, plan, 2); }
    }
  }

  /** A slot leaves the index only once none of its items is left, wherever the removal is cut. */
  lemma ListedUntilGone(items: Items, slot: Slot, force: bool, r: Retirement, e: Event, to: RefreshTo)
    requires e.command == Remove(slot, force, r)
    ensures Names(Happen(items, e, to)) != Names(items) ==> Gone(Happen(items, e, to), slot)
  {
    var plan, done := PlanOf(items, e, to), Done(items, e, to);
    var whole := force || (Adopted(items, slot, e.answers) && r.tombstoned && r.deleted);
    RemoveParts(items, slot, force, r, to, e.answers);
    if whole && done == |plan| {
      WholeRemoval(items, slot, force, r, e, to);
    } else {
      forall i | 0 <= i < done ensures plan[i].key != INDEX_KEY {}
      hide Gone, ApplyAll;
      Unaddressed(items, plan[..done], INDEX_KEY);
    }
  }

  // ---- removal

  /**
   * From any state at all, whatever is refused, a completed forced removal leaves none of the slot's items and
   * takes just its name out of the index it can read. It leaves every other slot as it was exactly when it
   * stores no refreshed token in another slot, or one that is already there.
   */
  lemma RemoveForced(items: Items, slot: Slot, r: Retirement, to: RefreshTo, answers: Answers)
    ensures var after := ApplyAll(items, RemovePlan(items, slot, true, r, to, answers));
      && (forall secret :: secret in ALL ==> slot.Key(secret) !in after)
      && Names(after) == Without(SeenNames(items, answers), slot.Name())
      && (OthersKept(items, after, slot) <==>
            || !Adopted(items, slot, answers) || r.refreshed == None || RefreshTarget(to, slot) == slot
            || (&& RefreshTarget(to, slot).Key(AccessToken) in items
                && items[RefreshTarget(to, slot).Key(AccessToken)]
                   == Token(items[slot.Key(AccessToken)].session, r.refreshed.value)))
  {
    hide OthersKept;
    var use := if Adopted(items, slot, answers) then UsePlan(items, slot, r.refreshed, to, answers) else [];
    var used := ApplyAll(items, use);
    UseKeepsIndex(items, use);
    ClearClears(used, slot, answers);
    assert ClearPlan(used, slot, answers) == ClearPlan(items, slot, answers);
    if Adopted(items, slot, answers) {
      ApplyTwo(items, use, ClearPlan(items, slot, answers));
    }
    var after := ApplyAll(items, RemovePlan(items, slot, true, r, to, answers));
    assert after == ApplyAll(used, ClearPlan(used, slot, answers));
    ClearedOthers(used, after, slot, Index(Without(SeenNames(items, answers), slot.Name())));
    if use != [] {
      var target := RefreshTarget(to, slot).Key(AccessToken);
      assert use[..0] == [] && used == items[target := use[0].item];
      if target.account == slot.account {
        SetInSlot(items, after, slot, target, use[0].item);
      } else {
        SetElsewhere(items, after, slot, target, use[0].item);
      }
    }
  }

  lemma ClearedOthers(items: Items, after: Items, slot: Slot, index: Item)
    requires after
          == (items - {slot.Key(AccessToken), slot.Key(SessionPrivateKey), slot.Key(SessionId)})[INDEX_KEY := index]
    ensures OthersKept(items, after, slot)
  {
  }

  lemma SetInSlot(items: Items, after: Items, slot: Slot, key: SecretKey, item: Item)
    requires key.account == slot.account && OthersKept(items[key := item], after, slot)
    ensures OthersKept(items, after, slot)
  {
  }

  lemma SetElsewhere(items: Items, after: Items, slot: Slot, key: SecretKey, item: Item)
    requires key.account != slot.account && key != INDEX_KEY && OthersKept(items[key := item], after, slot)
    ensures OthersKept(items, after, slot) <==> key in items && items[key] == item
  {
    assert key in items[key := item].Keys + after.Keys && after[key] == item;
  }

  lemma ClearClears(items: Items, slot: Slot, answers: Answers)
    ensures ApplyAll(items, ClearPlan(items, slot, answers))
         == (items - {slot.Key(AccessToken), slot.Key(SessionPrivateKey), slot.Key(SessionId)})
            [INDEX_KEY := Index(Without(SeenNames(items, answers), slot.Name()))]
  {
    ForgetKeepsIndex(items, slot);
    ApplyTwo(items, ForgetPlan(slot), IndexRemovePlan(items, slot, answers));
    assert IndexRemovePlan(items, slot, answers)[..0] == [];
  }

  /** As the code has it, removing a named slot whose token was due leaves that session's token in the default slot. */
  lemma RemoveForcedLeavesToken(items: Items, slot: Slot, r: Retirement, answers: Answers)
    requires slot != DEFAULT && Adopted(items, slot, answers) && r.refreshed.Some?
    ensures var after := ApplyAll(items, RemovePlan(items, slot, true, r, TheDefaultSlot, answers));
      && DEFAULT.Key(AccessToken) in after
      && after[DEFAULT.Key(AccessToken)] == Token(items[slot.Key(AccessToken)].session, r.refreshed.value)
  {
    var use := UsePlan(items, slot, r.refreshed, TheDefaultSlot, answers);
    ApplyTwo(items, use, ClearPlan(items, slot, answers));
    ApplyOneMore(items, use, 0);
    UseKeepsIndex(items, use);
    assert use[..1] == use;
    assert ClearPlan(ApplyAll(items, use), slot, answers) == ClearPlan(items, slot, answers);
    ClearClears(ApplyAll(items, use), slot, answers);
  }

  /**
   * After a completed forced removal the slot can be created again, wherever its token went and whatever is
   * refused.
   */
  lemma RemoveReenablesCreate(items: Items, slot: Slot, r: Retirement, to: RefreshTo, first: Answers,
                              pairing: Pairing, then_: Answers)
    requires pairing.session.Some? && pairing.registered && pairing.policyWritten
    ensures var removed := ApplyAll(items, RemovePlan(items, slot, true, r, to, first));
      var created := ApplyAll(removed, CreatePlan(removed, slot, pairing, then_));
      Adoptable(created, slot) && slot.Name() in Names(created)
  {
    RemoveForced(items, slot, r, to, first);
    var removed := ApplyAll(items, RemovePlan(items, slot, true, r, to, first));
    assert AccessToken in ALL by { assert ALL[0] == AccessToken; }
    Created(removed, slot, pairing, then_);
  }
}
