/**
 * The keychain of local session slots, one write at a time: crates/heyl-app/src/session/,
 * crates/heyl-app/src/unlock.rs, crates/heyl-ports/src/secret_store.rs.
 *
 * Every command is a plan of keychain writes. A crash, or a keychain that refuses, leaves a prefix of
 * the plan done.
 */
module Slots {
  import opened Wrappers

  // ---- keys and items

  datatype StoredSecret = AccessToken | SessionPrivateKey | SlotIndex | SessionId

  /** The three items a session owns, in the order they are forgotten. */
  const ALL: seq<StoredSecret> := [AccessToken, SessionPrivateKey, SessionId]

  datatype SecretKey = SecretKey(account: Option<string>, secret: StoredSecret) {
    /** The keyring service: `heyl`, or `heyl:<label>`. */
    function Service(): string {
      match account
      case None => "heyl"
      case Some(name) => "heyl:" + name
    }
  }

  const DEFAULT_SLOT := "default"

  datatype Slot = Slot(account: Option<string>) {
    function Name(): string {
      match account
      case Some(name) => name
      case None => DEFAULT_SLOT
    }

    function Key(secret: StoredSecret): SecretKey { SecretKey(account, secret) }

    /** What `Slot::new` makes: the default slot has no label, and no other label spells it. */
    predicate WellNamed() { account.Some? ==> account.value != "" && account.value != DEFAULT_SLOT }
  }

  function NewSlot(name: Option<string>): (slot: Slot)
    ensures slot.WellNamed()
    ensures name.Some? && name.value != "" ==> slot.Name() == name.value
    ensures name == None || name.value == "" ==> slot.Name() == "default"
    ensures name == Some("default") ==> slot.account == None
  {
    if name.Some? && name.value != "" && name.value != DEFAULT_SLOT then Slot(name) else Slot(None)
  }

  const DEFAULT: Slot := Slot(None)
  const INDEX_KEY: SecretKey := SecretKey(None, SlotIndex)

  /** Different slots never share a keychain entry, and have different names in the index. */
  lemma SlotsApart(a: Slot, b: Slot, x: StoredSecret, y: StoredSecret)
    requires a.WellNamed() && b.WellNamed() && a != b
    ensures a.Key(x).Service() != b.Key(y).Service()
    ensures a.Name() != b.Name()
  {
    if a.account.Some? && b.account.Some? {
      assert a.Key(x).Service()[5..] == a.account.value;
      assert b.Key(y).Service()[5..] == b.account.value;
    }
  }

  /** The keyring services, written out. */
  lemma ServiceNames(account: string, secret: StoredSecret)
    ensures Slot(None).Key(secret).Service() == "heyl"
    ensures Slot(Some(account)).Key(secret).Service() == "heyl:" + account
    ensures account != "" && account != "default" ==> NewSlot(Some(account)) == Slot(Some(account))
  {
  }

  datatype Item =
    | Token(session: nat, serial: nat)
    | PrivateKey(session: nat)
    | Id(session: nat)
    | Index(names: seq<string>)

  type Items = map<SecretKey, Item>

  /** The names the index holds; one that is missing or odd holds none. */
  function Names(items: Items): seq<string> {
    if INDEX_KEY in items && items[INDEX_KEY].Index? then items[INDEX_KEY].names else []
  }

  predicate Exists(items: Items, slot: Slot) { slot.Key(AccessToken) in items }

  /** Whether the keychain answers a command's reads of the slot's own items, and of the index. */
  datatype Answers = Answers(slot: bool, index: bool)

  const ALL_ANSWERED := Answers(true, true)

  /** Whether a slot has credentials at all, as far as a command can see: a refused read reads as absent. */
  predicate SeenToExist(items: Items, slot: Slot, answers: Answers) { answers.slot && Exists(items, slot) }

  /** Every slot this machine is seen to know about: a refused read of the index reads as none. */
  function SeenNames(items: Items, answers: Answers): seq<string> { if answers.index then Names(items) else [] }

  /** Whether a slot's three items can be read back. */
  predicate Adoptable(items: Items, slot: Slot) {
    && slot.Key(AccessToken) in items && items[slot.Key(AccessToken)].Token?
    && slot.Key(SessionId) in items && items[slot.Key(SessionId)].Id?
    && slot.Key(SessionPrivateKey) in items && items[slot.Key(SessionPrivateKey)].PrivateKey?
  }

  // ---- plans

  datatype Write = Set(key: SecretKey, item: Item) | Delete(key: SecretKey)

  function Apply(items: Items, w: Write): Items {
    match w
    case Set(key, item) => items[key := item]
    case Delete(key) => items - {key}
  }

  function ApplyAll(items: Items, plan: seq<Write>): Items {
    if plan == [] then items else Apply(ApplyAll(items, plan[..|plan| - 1]), plan[|plan| - 1])
  }

  lemma {:induction false} ApplyTwo(items: Items, a: seq<Write>, b: seq<Write>)
    ensures ApplyAll(items, a + b) == ApplyAll(ApplyAll(items, a), b)
  {
    if b == [] {
      assert a + b == a;
    } else {
      assert (a + b)[..|a + b| - 1] == a + b[..|b| - 1];
      ApplyTwo(items, a, b[..|b| - 1]);
    }
  }

  lemma ApplyOneMore(items: Items, plan: seq<Write>, i: nat)
    requires i < |plan|
    ensures ApplyAll(items, plan[..i + 1]) == Apply(ApplyAll(items, plan[..i]), plan[i])
  {
    assert plan[..i + 1][..i] == plan[..i];
  }

  function StorePlan(slot: Slot, session: nat): seq<Write> {
    [Set(slot.Key(SessionPrivateKey), PrivateKey(session)),
     Set(slot.Key(SessionId), Id(session)),
     Set(slot.Key(AccessToken), Token(session, 0))]
  }

  function IndexAddPlan(items: Items, slot: Slot, answers: Answers): seq<Write> {
    var names := SeenNames(items, answers);
    if slot.Name() in names then [] else [Set(INDEX_KEY, Index(names + [slot.Name()]))]
  }

  function Without(names: seq<string>, name: string): seq<string> {
    if names == [] then []
    else Without(names[..|names| - 1], name) + if names[|names| - 1] == name then [] else [names[|names| - 1]]
  }

  function IndexRemovePlan(items: Items, slot: Slot, answers: Answers): seq<Write> {
    [Set(INDEX_KEY, Index(Without(SeenNames(items, answers), slot.Name())))]
  }

  function ForgetPlan(slot: Slot): seq<Write> {
    seq(|ALL|, i requires 0 <= i < |ALL| => Delete(slot.Key(ALL[i])))
  }

  /** What the phone and the backend answer while a slot is being created. */
  datatype Pairing = Pairing(session: Option<nat>, registered: bool, policyWritten: bool)

  function CreatePlan(items: Items, slot: Slot, p: Pairing, answers: Answers): seq<Write> {
    if SeenToExist(items, slot, answers) || p.session == None then []
    else StorePlan(slot, p.session.value)
         + if p.registered && p.policyWritten then IndexAddPlan(items, slot, answers) else []
  }

  /** Where a refreshed token goes: to the default slot, as the code has it, or to the slot it was read from. */
  datatype RefreshTo = TheDefaultSlot | ItsOwnSlot

  function RefreshTarget(to: RefreshTo, slot: Slot): Slot {
    if to == TheDefaultSlot then DEFAULT else slot
  }

  /** Whether a slot's token and private key can be read. */
  predicate Usable(items: Items, slot: Slot) {
    slot.Key(AccessToken) in items && items[slot.Key(AccessToken)].Token? && slot.Key(SessionPrivateKey) in items
  }

  /** Using a slot: the only write is a token the backend asked to refresh, of the session it was read for. */
  function UsePlan(items: Items, slot: Slot, refreshed: Option<nat>, to: RefreshTo, answers: Answers): seq<Write> {
    var token := slot.Key(AccessToken);
    if refreshed == None || !answers.slot || !Usable(items, slot) then []
    else [Set(RefreshTarget(to, slot).Key(AccessToken), Token(items[token].session, refreshed.value))]
  }

  /** What happens at the backend while a slot is being removed. */
  datatype Retirement = Retirement(tombstoned: bool, deleted: bool, refreshed: Option<nat>)

  function ClearPlan(items: Items, slot: Slot, answers: Answers): seq<Write> {
    ForgetPlan(slot) + IndexRemovePlan(items, slot, answers)
  }

  /** Whether `adopt` reads a slot's three items back. */
  predicate Adopted(items: Items, slot: Slot, answers: Answers) { answers.slot && Adoptable(items, slot) }

  function RemovePlan(items: Items, slot: Slot, force: bool, r: Retirement, to: RefreshTo,
                      answers: Answers): seq<Write> {
    if !Adopted(items, slot, answers) then (if force then ClearPlan(items, slot, answers) else [])
    else UsePlan(items, slot, r.refreshed, to, answers)
         + if force || (r.tombstoned && r.deleted) then ClearPlan(items, slot, answers) else []
  }

  // ---- what commands leave

  /** Nothing happened, or the one item written is the slot's refreshed token, where refreshed tokens go. */
  predicate OnlyRefreshed(before: Items, after: Items, slot: Slot, refreshed: Option<nat>, to: RefreshTo) {
    var token := SecretKey(slot.account, AccessToken);
    var target := SecretKey(if to == TheDefaultSlot then None else slot.account, AccessToken);
    || after == before
    || (&& refreshed.Some? && token in before && before[token].Token?
        && after == before[target := Token(before[token].session, refreshed.value)])
  }

  /** None of the slot's three items is left, and its name is in no index. */
  predicate Gone(items: Items, slot: Slot) {
    && SecretKey(slot.account, AccessToken) !in items
    && SecretKey(slot.account, SessionPrivateKey) !in items
    && SecretKey(slot.account, SessionId) !in items
    && slot.Name() !in Names(items)
  }

  lemma UseLeaves(items: Items, slot: Slot, refreshed: Option<nat>, to: RefreshTo, answers: Answers, done: nat)
    requires done <= |UsePlan(items, slot, refreshed, to, answers)|
    ensures OnlyRefreshed(items, ApplyAll(items, UsePlan(items, slot, refreshed, to, answers)[..done]),
                          slot, refreshed, to)
  {
    var plan := UsePlan(items, slot, refreshed, to, answers);
    if done == 1 {
      assert plan[..1] == plan && plan[..0] == [];
    }
  }

  lemma {:induction false} WithoutMeaning(names: seq<string>, name: string)
    ensures forall n :: n in Without(names, name) <==> n in names && n != name
  {
    if names != [] {
      var init, last := names[..|names| - 1], names[|names| - 1];
      WithoutMeaning(init, name);
      assert names == init + [last];
    }
  }

  /** Leaving names out does not move the others. */
  lemma {:induction false} WithoutInOrder(a: seq<string>, b: seq<string>, name: string)
    ensures Without(a + b, name) == Without(a, name) + Without(b, name)
  {
    hide Without;
    if b == [] {
      assert a + b == a;
      WithoutNone(name);
    } else {
      var init, last := b[..|b| - 1], b[|b| - 1];
      assert a + b == (a + init) + [last] && b == init + [last];
      WithoutInOrder(a, init, name);
      WithoutLast(a + init, last, name);
      WithoutLast(init, last, name);
    }
  }

  lemma WithoutNone(name: string)
    ensures Without([], name) == []
  {
  }

  lemma WithoutLast(init: seq<string>, last: string, name: string)
    ensures Without(init + [last], name) == Without(init, name) + if last == name then [] else [last]
  {
    assert (init + [last])[..|init|] == init;
  }

  lemma WithoutOne(other: string, name: string)
    ensures Without([other], name) == if other == name then [] else [other]
  {
    assert [other][..0] == [];
  }

  lemma ClearLeaves(items: Items, slot: Slot, answers: Answers)
    ensures Gone(ApplyAll(items, ClearPlan(items, slot, answers)), slot)
  {
    var forget, drop := ForgetPlan(slot), IndexRemovePlan(items, slot, answers);
    ForgetKeepsIndex(items, slot);
    ApplyTwo(items, forget, drop);
    assert drop[..0] == [];
    WithoutMeaning(SeenNames(items, answers), slot.Name());
  }

  /** A removal that may not go on leaves everything but a refreshed token; one that goes through leaves nothing. */
  lemma RemovalEnds(items: Items, slot: Slot, force: bool, r: Retirement, to: RefreshTo, answers: Answers)
    ensures var plan := RemovePlan(items, slot, force, r, to, answers);
      if force || (Adopted(items, slot, answers) && r.tombstoned && r.deleted) then Gone(ApplyAll(items, plan), slot)
      else forall done :: 0 <= done <= |plan| ==>
        OnlyRefreshed(items, ApplyAll(items, plan[..done]), slot, r.refreshed, to)
  {
    hide OnlyRefreshed, Gone;
    var plan := RemovePlan(items, slot, force, r, to, answers);
    var use := if Adopted(items, slot, answers) then UsePlan(items, slot, r.refreshed, to, answers) else [];
    if force || (Adopted(items, slot, answers) && r.tombstoned && r.deleted) {
      UseKeepsIndex(items, use);
      ApplyTwo(items, use, ClearPlan(items, slot, answers));
      ClearPlanSame(ApplyAll(items, use), items, slot, answers);
      ClearLeaves(ApplyAll(items, use), slot, answers);
      assert plan == use + ClearPlan(items, slot, answers);
    } else {
      NothingWritten(items, slot, r.refreshed, to);
      forall done | 0 <= done <= |plan|
        ensures OnlyRefreshed(items, ApplyAll(items, plan[..done]), slot, r.refreshed, to)
      {
        if Adopted(items, slot, answers) {
          assert plan == use;
          UseLeaves(items, slot, r.refreshed, to, answers, done);
        }
      }
    }
  }

  lemma NothingWritten(items: Items, slot: Slot, refreshed: Option<nat>, to: RefreshTo)
    ensures OnlyRefreshed(items, ApplyAll(items, []), slot, refreshed, to)
  {
  }

  // ---- the commands, writing as they go

  class Keychain {
    var items: Items

    constructor ()
      ensures items == map[]
    {
      items := map[];
    }

    /** One write; it happens or it does not. */
    method Do(w: Write) returns (ok: bool)
      modifies this
      ensures items == if ok then Apply(old(items), w) else old(items)
    {
      ok := *;
      if ok {
        match w
        case Set(key, item) => items := items[key := item];
        case Delete(key) => items := items - {key};
      }
    }

    method IndexAdd(slot: Slot, answers: Answers) returns (ok: bool, ghost done: nat)
      modifies this
      ensures done <= |IndexAddPlan(old(items), slot, answers)|
      ensures ok <==> done == |IndexAddPlan(old(items), slot, answers)|
      ensures items == ApplyAll(old(items), IndexAddPlan(old(items), slot, answers)[..done])
    {
      var names := SeenNames(items, answers);
      if slot.Name() in names {
        return true, 0;
      }
      names := names + [slot.Name()];
      ok := Do(Set(INDEX_KEY, Index(names)));
      done := if ok then 1 else 0;
    }

    method IndexRemove(slot: Slot, answers: Answers) returns (ok: bool, ghost done: nat)
      modifies this
      ensures done <= 1 && (ok <==> done == 1)
      ensures items == ApplyAll(old(items), IndexRemovePlan(old(items), slot, answers)[..done])
    {
      var names, kept := SeenNames(items, answers), [];
      for i := 0 to |names|
        invariant kept == Without(names[..i], slot.Name())
        invariant items == old(items)
      {
        assert names[..i + 1][..i] == names[..i];
        if names[i] != slot.Name() {
          kept := kept + [names[i]];
        }
      }
      assert names[..|names|] == names;
      ok := Do(Set(INDEX_KEY, Index(kept)));
      done := if ok then 1 else 0;
    }

    method Forget(slot: Slot) returns (ok: bool, ghost done: nat)
      modifies this
      ensures done <= |ForgetPlan(slot)| && (ok <==> done == |ForgetPlan(slot)|)
      ensures items == ApplyAll(old(items), ForgetPlan(slot)[..done])
    {
      done := 0;
      for i := 0 to |ALL|
        invariant done == i
        invariant items == ApplyAll(old(items), ForgetPlan(slot)[..i])
      {
        assert ForgetPlan(slot)[..i + 1][..i] == ForgetPlan(slot)[..i];
        ok := Do(Delete(slot.Key(ALL[i])));
        if !ok {
          return;
        }
        done := i + 1;
      }
      ok := true;
    }

    /** Pair, store the key, then the id, then the token, then register and list the slot. */
    method Create(slot: Slot, p: Pairing, answers: Answers) returns (ok: bool, ghost done: nat)
      modifies this
      ensures done <= |CreatePlan(old(items), slot, p, answers)|
      ensures items == ApplyAll(old(items), CreatePlan(old(items), slot, p, answers)[..done])
      ensures ok <==> !SeenToExist(old(items), slot, answers) && p.session.Some? && p.registered && p.policyWritten
                      && done == |CreatePlan(old(items), slot, p, answers)|
      ensures ok ==> Exists(items, slot)
    {
      done := 0;
      if SeenToExist(items, slot, answers) || p.session == None {
        return false, 0;
      }
      ghost var plan := CreatePlan(items, slot, p, answers);
      ghost var start := items;
      var session := p.session.value;
      ok := Do(Set(slot.Key(SessionPrivateKey), PrivateKey(session)));
      if !ok { return; }
      ApplyOneMore(start, plan, 0);
      ok := Do(Set(slot.Key(SessionId), Id(session)));
      if !ok { return ok, 1; }
      ApplyOneMore(start, plan, 1);
      ok := Do(Set(slot.Key(AccessToken), Token(session, 0)));
      if !ok { return ok, 2; }
      ApplyOneMore(start, plan, 2);
      done := 3;
      if !p.registered || !p.policyWritten {
        return false, 3;
      }
      assert Names(items) == Names(start);
      ghost var more := 0;
      ok, more := IndexAdd(slot, answers);
      done := 3 + more;
      assert plan[..3] == StorePlan(slot, session);
      assert plan[..done] == plan[..3] + IndexAddPlan(start, slot, answers)[..more];
      ApplyTwo(start, plan[..3], IndexAddPlan(start, slot, answers)[..more]);
    }

    /** Read a slot's credentials, and store the token the backend refreshes. */
    method Use(slot: Slot, refreshed: Option<nat>, to: RefreshTo, answers: Answers) returns (ok: bool, ghost done: nat)
      modifies this
      ensures done <= |UsePlan(old(items), slot, refreshed, to, answers)|
      ensures items == ApplyAll(old(items), UsePlan(old(items), slot, refreshed, to, answers)[..done])
      ensures ok <==>
        answers.slot && Usable(old(items), slot) && done == |UsePlan(old(items), slot, refreshed, to, answers)|
    {
      done := 0;
      var token := slot.Key(AccessToken);
      if !answers.slot || token !in items || !items[token].Token? || slot.Key(SessionPrivateKey) !in items {
        return false, 0;
      }
      if refreshed == None {
        return true, 0;
      }
      ok := Do(Set(RefreshTarget(to, slot).Key(AccessToken), Token(items[token].session, refreshed.value)));
      done := if ok then 1 else 0;
    }

    method Clear(slot: Slot, answers: Answers) returns (ok: bool, ghost done: nat)
      modifies this
      ensures done <= |ClearPlan(old(items), slot, answers)| && (ok <==> done == |ClearPlan(old(items), slot, answers)|)
      ensures items == ApplyAll(old(items), ClearPlan(old(items), slot, answers)[..done])
    {
      ghost var start, forget, drop := items, ForgetPlan(slot), IndexRemovePlan(items, slot, answers);
      ok, done := Forget(slot);
      assert ClearPlan(start, slot, answers)[..done] == forget[..done];
      if !ok { return; }
      assert forget[..done] == forget;
      ForgetKeepsIndex(start, slot);
      ghost var dropped;
      ok, dropped := IndexRemove(slot, answers);
      done := done + dropped;
      assert ClearPlan(start, slot, answers)[..done] == forget + drop[..dropped];
      ApplyTwo(start, forget, drop[..dropped]);
    }

    /** Retire a session: tombstone its entry, delete it, forget its items, drop it from the index. */
    method Remove(slot: Slot, force: bool, r: Retirement, to: RefreshTo, answers: Answers)
      returns (ok: bool, ghost plan: seq<Write>, ghost done: nat)
      modifies this
      ensures plan == RemovePlan(old(items), slot, force, r, to, answers)
           || (force && plan == RemovePlan(old(items), slot, force, r.(refreshed := None), to, answers))
      ensures done <= |plan| && items == ApplyAll(old(items), plan[..done])
      ensures ok <==> done == |plan| && (force || (Adopted(old(items), slot, answers) && r.tombstoned && r.deleted))
      ensures !force && !(Adopted(old(items), slot, answers) && r.tombstoned && r.deleted) ==>
        OnlyRefreshed(old(items), items, slot, r.refreshed, to)
      ensures ok ==> Gone(items, slot)
    {
      hide Gone, OnlyRefreshed, RemovePlan, ClearPlan, UsePlan, ApplyAll, Adopted;
      ghost var start, stored := items, r;
      plan, done := RemovePlan(items, slot, force, r, to, answers), 0;
      if !Adopted(items, slot, answers) {
        RemoveUses(start, slot, force, r, to, answers, 0);
        if !force {
          RemovalOutcome(start, items, slot, force, r, to, answers, false, plan, 0);
          return false, plan, 0;
        }
      } else {
        var used;
        used, done := Use(slot, r.refreshed, to, answers);
        RemoveUses(start, slot, force, r, to, answers, done);
        if !force && (!used || !r.tombstoned || !r.deleted) {
          RemovalOutcome(start, items, slot, force, r, to, answers, false, plan, done);
          return false, plan, done;
        }
        if done < |UsePlan(start, slot, r.refreshed, to, answers)| {
          stored := r.(refreshed := None);
          RemoveUses(start, slot, force, stored, to, answers, 0);
          plan := RemovePlan(start, slot, force, stored, to, answers);
        }
      }
      ghost var before, cleared := items, 0;
      ok, cleared := Clear(slot, answers);
      RemoveClears(start, before, slot, force, stored, to, answers, done, cleared);
      done := done + cleared;
      RemovalOutcome(start, items, slot, force, r, to, answers, ok, plan, done);
    }
  }

  lemma RemovalOutcome(start: Items, items: Items, slot: Slot, force: bool, r: Retirement, to: RefreshTo,
                       answers: Answers, ok: bool, plan: seq<Write>, done: nat)
    requires plan == RemovePlan(start, slot, force, r, to, answers)
          || (force && plan == RemovePlan(start, slot, force, r.(refreshed := None), to, answers))
    requires done <= |plan| && items == ApplyAll(start, plan[..done])
    requires ok ==> done == |plan| && (force || (Adopted(start, slot, answers) && r.tombstoned && r.deleted))
    ensures !force && !(Adopted(start, slot, answers) && r.tombstoned && r.deleted) ==>
      OnlyRefreshed(start, items, slot, r.refreshed, to)
    ensures ok ==> Gone(items, slot)
  {
    hide Gone, OnlyRefreshed, RemovePlan, ApplyAll, Adopted;
    RemovalEnds(start, slot, force, r, to, answers);
    RemovalEnds(start, slot, force, r.(refreshed := None), to, answers);
    assert plan[..|plan|] == plan;
  }

  lemma ClearPlanSame(a: Items, b: Items, slot: Slot, answers: Answers)
    requires Names(a) == Names(b)
    ensures ClearPlan(a, slot, answers) == ClearPlan(b, slot, answers)
  {
  }

  /** What a removal has done before anything is cleared. */
  lemma RemoveUses(items: Items, slot: Slot, force: bool, r: Retirement, to: RefreshTo, answers: Answers, done: nat)
    requires done <= |UsePlan(items, slot, r.refreshed, to, answers)|
    requires done == 0 || Adopted(items, slot, answers)
    ensures done <= |RemovePlan(items, slot, force, r, to, answers)|
    ensures force || (Adopted(items, slot, answers) && r.tombstoned && r.deleted) ==>
      done < |RemovePlan(items, slot, force, r, to, answers)|
    ensures r.refreshed == None ==> UsePlan(items, slot, r.refreshed, to, answers) == []
    ensures done < |UsePlan(items, slot, r.refreshed, to, answers)| ==> done == 0
    ensures ApplyAll(items, RemovePlan(items, slot, force, r, to, answers)[..done])
         == ApplyAll(items, UsePlan(items, slot, r.refreshed, to, answers)[..done])
    ensures done == 0 ==> ApplyAll(items, UsePlan(items, slot, r.refreshed, to, answers)[..done]) == items
  {
    var plan, use := RemovePlan(items, slot, force, r, to, answers), UsePlan(items, slot, r.refreshed, to, answers);
    assert plan[..done] == use[..done];
  }

  /** And once the clearing is under way. */
  lemma RemoveClears(start: Items, used: Items, slot: Slot, force: bool, r: Retirement, to: RefreshTo,
                     answers: Answers, done: nat, cleared: nat)
    requires force || (Adopted(start, slot, answers) && r.tombstoned && r.deleted)
    requires done == if Adopted(start, slot, answers) then |UsePlan(start, slot, r.refreshed, to, answers)| else 0
    requires used == ApplyAll(start, RemovePlan(start, slot, force, r, to, answers)[..done])
    requires cleared <= |ClearPlan(used, slot, answers)|
    ensures var plan := RemovePlan(start, slot, force, r, to, answers);
      && done + cleared <= |plan|
      && (cleared == |ClearPlan(used, slot, answers)| <==> done + cleared == |plan|)
      && ApplyAll(used, ClearPlan(used, slot, answers)[..cleared]) == ApplyAll(start, plan[..done + cleared])
  {
    var plan, clear := RemovePlan(start, slot, force, r, to, answers), ClearPlan(start, slot, answers);
    RemoveParts(start, slot, force, r, to, answers);
    hide RemovePlan, ClearPlan, ApplyAll;
    var use := plan[..done];
    assert plan == use + clear;
    UseKeepsIndex(start, use);
    ClearPlanSame(start, used, slot, answers);
    assert plan[..done + cleared] == use + clear[..cleared];
    ApplyTwo(start, use, clear[..cleared]);
  }

  lemma RemoveParts(items: Items, slot: Slot, force: bool, r: Retirement, to: RefreshTo, answers: Answers)
    ensures var use := if Adopted(items, slot, answers) then UsePlan(items, slot, r.refreshed, to, answers) else [];
      RemovePlan(items, slot, force, r, to, answers) ==
        if force || (Adopted(items, slot, answers) && r.tombstoned && r.deleted)
        then use + ClearPlan(items, slot, answers) else use
  {
    assert [] + ClearPlan(items, slot, answers) == ClearPlan(items, slot, answers);
  }

  lemma UseKeepsIndex(items: Items, plan: seq<Write>)
    requires plan == [] || (|plan| == 1 && plan[0].Set? && plan[0].key.secret == AccessToken)
    ensures Names(ApplyAll(items, plan)) == Names(items)
  {
  }

  lemma ForgetKeepsIndex(items: Items, slot: Slot)
    ensures Names(ApplyAll(items, ForgetPlan(slot))) == Names(items)
    ensures ApplyAll(items, ForgetPlan(slot))
         == items - {slot.Key(AccessToken), slot.Key(SessionPrivateKey), slot.Key(SessionId)}
  {
    var plan := ForgetPlan(slot);
    assert plan[..2][..1] == plan[..1] && plan[..1][..0] == [];
    assert ApplyAll(items, plan[..1]) == items - {slot.Key(AccessToken)};
    assert ApplyAll(items, plan[..2]) == items - {slot.Key(AccessToken), slot.Key(SessionPrivateKey)};
  }
}
