/**
 * Read-modify-write on a log of deltas: crates/heyl-app/src/meta_vault.rs. A client folds the log,
 * edits its own entry, and commits the whole folded state back onto the same log, guarded by the
 * commit it read last.
 */
module MetaLog {
  import opened Wrappers
  import opened OrderedMap
  import opened Json
  import opened Merge
  import opened Meta
  import Text

  // ---- committing the whole state back is committing the edit

  lemma MergeListsIdempotent(v: Value)
    ensures MergeLists(v, v) == v
  {
    if v.Object? {
      var m := v.fields;
      MergeKeys(Choose, m, m);
      UnseenAll(Keys(m), Keys(m));
      assert Keys(m) + [] == Keys(m);
      forall key ensures Get(OrderedMap.Merge(Choose, m, m), key) == Get(m, key) {
        MergeGet(Choose, m, m, key);
      }
      Same(OrderedMap.Merge(Choose, m, m), m);
    }
  }

  /** The stamp on an edit is older than the entry it would replace. */
  predicate Stale(edit: Edit, content: Content, id: string)
    requires Edited(edit, content, id).Ok?
  {
    var current := EntryOf(content, id);
    current.Some? && Newer(current.value, EditEntry(edit, current).value)
  }

  /**
   * The folded state, edited and merged back whole onto the log, is exactly the edited state, key order
   * included; unless the edit's stamp is older than the entry's, and then it is exactly the old state.
   */
  lemma CommitWholeState(edit: Edit, content: Content, id: string)
    requires Edited(edit, content, id).Ok?
    ensures MergeContents(content, Edited(edit, content, id).value)
         == if Stale(edit, content, id) then content else Edited(edit, content, id).value
  {
    var list := Get(WithSessions(content), SESSIONS).value;
    var entry := EditEntry(edit, Get(list.fields, id)).value;
    var edited := Object(Put(list.fields, id, entry));
    EditTouchesOneEntry(edit, content, id);
    forall key ensures IdempotentAt(MergeLists, content, key) {
      if Get(content, key).Some? { MergeListsIdempotent(Get(content, key).value); }
    }
    MergePut(MergeLists, content, SESSIONS, edited);
    if Get(content, SESSIONS).Some? {
      MergePut(Choose, list.fields, id, entry);
      if Stale(edit, content, id) {
        PutPresent(list.fields, id, Get(list.fields, id).value);
        PutPresent(content, SESSIONS, list);
      }
    } else {
      AddedAtEnd(content, edited);
    }
  }

  /** The time an edit gives the entry it writes. */
  function TimeOf(edit: Edit): string {
    match edit
    case Tombstone(now) => now
    case Rename(_, now) => now
    case Upsert(entry) => match entry.Field("updateTime") case Some(Str(text)) => text case _ => ""
  }

  /** It is the text of `updateTime` in the entry there that is compared, against the time of the edit. */
  lemma StaleMeaning(edit: Edit, content: Content, id: string)
    requires Edited(edit, content, id).Ok?
    ensures Stale(edit, content, id) <==> exists stamp ::
      && Element(content, "sessions", id).Some?
      && Element(content, "sessions", id).value.Field("updateTime") == Some(Str(stamp))
      && Text.Less(TimeOf(edit), stamp)
  {
    var current := EntryOf(content, id);
    if current.Some? {
      EntryEdited(edit, content, id);
      EditStamp(edit, current);
      EntryStamp(current.value, TimeOf(edit));
    }
    hide Edited, EditEntry, UpdateTime, Element, Value.Field, Text.Less, TimeOf;
  }

  lemma EntryStamp(current: Value, now: string)
    ensures Text.Less(now, UpdateTime(current)) <==>
      exists stamp :: current.Field("updateTime") == Some(Str(stamp)) && Text.Less(now, stamp)
  {
    var stamp := UpdateTime(current);
    if stamp != "" { StampText(current, stamp); }
  }

  lemma EntryEdited(edit: Edit, content: Content, id: string)
    requires Edited(edit, content, id).Ok? && EntryOf(content, id).Some?
    ensures EditEntry(edit, EntryOf(content, id)).Some?
  {
  }

  lemma EditStamp(edit: Edit, current: Option<Value>)
    requires EditEntry(edit, current).Some?
    ensures UpdateTime(EditEntry(edit, current).value) == TimeOf(edit)
  {
    if !edit.Upsert? { EditKeepsFields(edit, current.value.fields, "updateTime"); }
    hide Stamped, Find;
  }

  lemma PutAgain(m: Content, key: string, first: Value, second: Value)
    ensures Put(Put(m, key, first), key, second) == Put(m, key, second)
  {
    hide Put, Get, Keys;
    KeyAt(m, key);
    KeyAt(Put(m, key, first), key);
    Same(Put(Put(m, key, first), key, second), Put(m, key, second));
  }

  lemma AddedAtEnd(content: Content, list: Value)
    requires Get(content, SESSIONS) == None
    ensures Put(WithSessions(content), SESSIONS, list) == Put(content, SESSIONS, list)
  {
    var added := WithSessions(content);
    assert added == Put(content, SESSIONS, Object([]));
    PutAgain(content, SESSIONS, Object([]), list);
  }

  /** The commit takes effect exactly when its stamp is not older than the entry it replaces. */
  lemma CommitTakesEffect(edit: Edit, history: seq<Content>, id: string)
    requires Edited(edit, FoldContents(history), id).Ok?
    ensures var e := Edited(edit, FoldContents(history), id).value;
      FoldContents(history + [e]) == e <==> !Stale(edit, FoldContents(history), id)
  {
    var content := FoldContents(history);
    var e := Edited(edit, content, id).value;
    FoldAppend(MergeLists, history, e);
    CommitWholeState(edit, content, id);
    if Stale(edit, content, id) {
      EditTouchesOneEntry(edit, content, id);
      Text.LessIrreflexive(UpdateTime(EntryOf(content, id).value));
    }
  }

  /**
   * A device whose clock runs behind the stamp on its own entry cannot retire it: its tombstone is committed
   * and the log folds to what it folded to before.
   */
  lemma LateTombstone(history: seq<Content>, id: string, now: string)
    requires var entry := EntryOf(FoldContents(history), id);
      entry.Some? && entry.value.Object? && Text.Less(now, UpdateTime(entry.value))
    ensures var edited := Edited(Tombstone(now), FoldContents(history), id);
      edited.Ok? && edited.value != FoldContents(history) == FoldContents(history + [edited.value])
  {
    hide FoldContents, MergeContents, Edited, Stale, EntryOf, UpdateTime;
    var content := FoldContents(history);
    LateIsStale(content, id, now);
    FoldIsMerge(history, Edited(Tombstone(now), content, id).value);
    CommitWholeState(Tombstone(now), content, id);
    CommitTakesEffect(Tombstone(now), history, id);
  }

  lemma LateIsStale(content: Content, id: string, now: string)
    requires var entry := EntryOf(content, id);
      entry.Some? && entry.value.Object? && Text.Less(now, UpdateTime(entry.value))
    ensures Edited(Tombstone(now), content, id).Ok? && Stale(Tombstone(now), content, id)
  {
    EditKeepsFields(Tombstone(now), EntryOf(content, id).value.fields, UPDATE_TIME);
    hide Stamped, Find;
  }

  lemma FoldIsMerge(history: seq<Content>, last: Content)
    ensures FoldContents(history + [last]) == MergeContents(FoldContents(history), last)
  {
    FoldAppend(MergeLists, history, last);
  }

  /** Such a log: one commit whose entry is stamped. */
  lemma StampedEntry(id: string, stamp: string) returns (history: seq<Content>)
    ensures var entry := EntryOf(FoldContents(history), id);
      entry.Some? && entry.value.Object? && UpdateTime(entry.value) == stamp
  {
    hide Get, FoldContents, Single;
    history := [Single(SESSIONS, Object(Single(id, Object(Single(UPDATE_TIME, Str(stamp))))))];
    FoldOne(history[0]);
  }

  // ---- many clients on one log

  /** What a client holds between opening the vault and committing. */
  datatype Held = Held(content: Content, guard: nat, id: string, edit: Edit)

  datatype World = World(log: seq<Content>, held: map<nat, Held>)

  datatype Step =
    | Open(client: nat, id: string, edit: Edit)
    | Commit(client: nat)
    | Abandon(client: nat)
    | Foreign(delta: Content)

  /** The backend takes a commit only from a client that read the newest one. */
  predicate Accepted(w: World, step: Step) {
    step.Commit? && step.client in w.held && w.held[step.client].guard == |w.log|
  }

  function Next(w: World, step: Step): World {
    match step
    case Open(client, id, edit) =>
      var edited := Edited(edit, FoldContents(w.log), id);
      if w.log != [] && edited.Ok? then w.(held := w.held[client := Held(edited.value, |w.log|, id, edit)]) else w
    case Commit(client) =>
      if client !in w.held then w
      else World(if Accepted(w, step) then w.log + [w.held[client].content] else w.log, w.held - {client})
    case Abandon(client) => w.(held := w.held - {client})
    case Foreign(delta) => w.(log := w.log + [delta])
  }

  function Run(w: World, steps: seq<Step>): World {
    if steps == [] then w else Next(Run(w, steps[..|steps| - 1]), steps[|steps| - 1])
  }

  /** What a client holds is its edit of the log it read. */
  predicate EditOf(log: seq<Content>, h: Held) {
    h.guard <= |log| && Edited(h.edit, FoldContents(log[..h.guard]), h.id) == Ok(h.content)
  }

  ghost predicate Honest(w: World) {
    forall c :: c in w.held ==> EditOf(w.log, w.held[c])
  }

  /** A commit whose `sessions` is no object restarts the list. */
  predicate ObjectSessions(delta: Content) {
    var list := Get(delta, SESSIONS);
    list.Some? ==> list.value.Object?
  }

  /** A step by which this client neither opens the vault, commits, nor gives up. */
  predicate ByOthers(step: Step, client: nat) {
    match step
    case Open(c, _, _) => c != client
    case Commit(c) => c != client
    case Abandon(c) => c != client
    case Foreign(_) => true
  }

  lemma {:induction false} OthersLeaveHeld(w: World, steps: seq<Step>, client: nat)
    requires forall i :: 0 <= i < |steps| ==> ByOthers(steps[i], client)
    ensures client in Run(w, steps).held <==> client in w.held
    ensures client in w.held ==> Run(w, steps).held[client] == w.held[client]
    ensures w.log <= Run(w, steps).log
  {
    hide Edited, FoldContents, Accepted;
    if steps != [] {
      OthersLeaveHeld(w, steps[..|steps| - 1], client);
    }
  }

  /** A client's commit is accepted exactly when no commit has landed since it opened the vault, whatever others did. */
  lemma OpenThenCommit(w: World, client: nat, id: string, edit: Edit, steps: seq<Step>)
    requires w.log != [] && Edited(edit, FoldContents(w.log), id).Ok?
    requires forall i :: 0 <= i < |steps| ==> ByOthers(steps[i], client)
    ensures var before := Run(Next(w, Open(client, id, edit)), steps);
      && (before.log == w.log ==>
            Next(before, Commit(client)).log == w.log + [Edited(edit, FoldContents(w.log), id).value])
      && (before.log != w.log ==> Next(before, Commit(client)).log == before.log)
      && client !in Next(before, Commit(client)).held
  {
    hide Edited, FoldContents, Run;
    OthersLeaveHeld(Next(w, Open(client, id, edit)), steps, client);
  }

  /** A client that could not open the vault, or open the entry it meant to edit, has nothing to commit. */
  lemma NothingToCommit(w: World, client: nat, id: string, edit: Edit, steps: seq<Step>)
    requires w.log == [] || Edited(edit, FoldContents(w.log), id).Err?
    requires client !in w.held && forall i :: 0 <= i < |steps| ==> ByOthers(steps[i], client)
    ensures var before := Run(Next(w, Open(client, id, edit)), steps); Next(before, Commit(client)) == before
  {
    hide Edited, FoldContents, Run;
    OthersLeaveHeld(Next(w, Open(client, id, edit)), steps, client);
  }

  lemma LongerLog(log: seq<Content>, last: Content, h: Held)
    requires EditOf(log, h)
    ensures EditOf(log + [last], h)
  {
    assert (log + [last])[..h.guard] == log[..h.guard];
  }

  lemma NextHonest(w: World, step: Step)
    requires Honest(w)
    ensures Honest(Next(w, step))
  {
    match step
    case Open(client, id, edit) => assert w.log[..|w.log|] == w.log;
    case Commit(client) =>
      if Accepted(w, step) {
        forall c | c in w.held { LongerLog(w.log, w.held[client].content, w.held[c]); }
      }
    case Abandon(_) =>
    case Foreign(delta) =>
      forall c | c in w.held { LongerLog(w.log, delta, w.held[c]); }
  }

  lemma {:induction false} RunHonest(w: World, steps: seq<Step>)
    requires Honest(w)
    ensures Honest(Run(w, steps))
  {
    if steps != [] {
      RunHonest(w, steps[..|steps| - 1]);
      NextHonest(Run(w, steps[..|steps| - 1]), steps[|steps| - 1]);
    }
  }

  /** An accepted commit appends an edit of the very log it lands on. */
  lemma AcceptedIsCurrent(w: World, step: Step)
    requires Honest(w) && Accepted(w, step)
    ensures var h := w.held[step.client];
      && Edited(h.edit, FoldContents(w.log), h.id) == Ok(h.content)
      && FoldContents(Next(w, step).log)
         == if Stale(h.edit, FoldContents(w.log), h.id) then FoldContents(w.log) else h.content
  {
    hide Edited, Stale, OrderedMap.Merge, Fold;
    var h := w.held[step.client];
    assert w.log[..h.guard] == w.log;
    FoldAppend(MergeLists, w.log, h.content);
    CommitWholeState(h.edit, FoldContents(w.log), h.id);
  }

  // ---- each owner's register

  /** A newer write to a register is kept, an older one dropped. */
  function Latest(current: Option<Value>, written: Option<Value>): Option<Value> {
    Combined(Choose, current, written)
  }

  /**
   * A register per session id. Of the run it sees which commits are accepted and of what edit, and of the
   * other clients' commits what they write under that id, or that they restart the list; it never sees what
   * the log folds to.
   */
  function Register(w: World, steps: seq<Step>, id: string, start: Option<Value>): Option<Value> {
    if steps == [] then start
    else
      var n := |steps| - 1;
      var before, current := Run(w, steps[..n]), Register(w, steps[..n], id, start);
      match steps[n]
      case Commit(client) =>
        if Accepted(before, steps[n]) && before.held[client].id == id
        then Latest(current, EditEntry(before.held[client].edit, current)) else current
      case Foreign(delta) => if ObjectSessions(delta) then Latest(current, EntryOf(delta, id)) else None
      case Open(_, _, _) => current
      case Abandon(_) => current
  }

  lemma NextEntry(w: World, step: Step, id: string)
    requires Honest(w)
    ensures var current := EntryOf(FoldContents(w.log), id);
      EntryOf(FoldContents(Next(w, step).log), id) ==
        if Accepted(w, step) && w.held[step.client].id == id
          then Latest(current, EditEntry(w.held[step.client].edit, current))
        else if !step.Foreign? then current
        else if ObjectSessions(step.delta) then Latest(current, EntryOf(step.delta, id))
        else None
  {
    hide Edited, FoldContents, EditEntry, Choose;
    if Accepted(w, step) {
      AcceptedIsCurrent(w, step);
      AcceptedEntry(w.held[step.client], FoldContents(w.log), id);
    } else if step.Foreign? {
      ElementStep(w.log, step.delta, SESSIONS, id);
    }
  }

  /** What an accepted edit makes of an entry: the edited one if it is its own and not stale, or what was there. */
  lemma AcceptedEntry(h: Held, content: Content, id: string)
    requires Edited(h.edit, content, h.id) == Ok(h.content)
    ensures EntryOf(if Stale(h.edit, content, h.id) then content else h.content, id) ==
      if h.id == id then Latest(EntryOf(content, id), EditEntry(h.edit, EntryOf(content, id))) else EntryOf(content, id)
  {
    EditTouchesOneEntry(h.edit, content, h.id);
  }

  /** Over every run of every client, the log folds, under each id, to that id's own register. */
  lemma {:induction false} LogIsRegisters(w: World, steps: seq<Step>, id: string)
    requires Honest(w)
    ensures EntryOf(FoldContents(Run(w, steps).log), id) == Register(w, steps, id, EntryOf(FoldContents(w.log), id))
  {
    if steps != [] {
      var n := |steps| - 1;
      LogIsRegisters(w, steps[..n], id);
      RunHonest(w, steps[..n]);
      NextEntry(Run(w, steps[..n]), steps[n], id);
    }
  }

  /**
   * Whether a step leaves what an entry holds alone: it writes nothing there, or something strictly older,
   * and does not restart the list.
   */
  predicate Spares(w: World, step: Step, id: string, e: Value) {
    && (Accepted(w, step) ==> w.held[step.client].id != id)
    && (step.Foreign? ==> ObjectSessions(step.delta))
    && (step.Foreign? && EntryOf(step.delta, id).Some? ==> Newer(e, EntryOf(step.delta, id).value))
  }

  /** An entry, tombstones included, stays against any later copy with a strictly older time. */
  lemma {:induction false} EntryStays(w: World, steps: seq<Step>, id: string, e: Value)
    requires Honest(w)
    requires EntryOf(FoldContents(w.log), id) == Some(e)
    requires forall i :: 0 <= i < |steps| ==> Spares(Run(w, steps[..i]), steps[i], id, e)
    ensures EntryOf(FoldContents(Run(w, steps).log), id) == Some(e)
  {
    if steps != [] {
      var n := |steps| - 1;
      forall i | 0 <= i < n ensures Spares(Run(w, steps[..n][..i]), steps[..n][i], id, e) {
        assert steps[..n][..i] == steps[..i];
      }
      EntryStays(w, steps[..n], id, e);
      RunHonest(w, steps[..n]);
      EntrySpared(Run(w, steps[..n]), steps[n], id, e);
    }
  }

  lemma EntrySpared(w: World, step: Step, id: string, e: Value)
    requires Honest(w)
    requires EntryOf(FoldContents(w.log), id) == Some(e) && Spares(w, step, id, e)
    ensures EntryOf(FoldContents(Next(w, step).log), id) == Some(e)
  {
    NextEntry(w, step, id);
  }

  /** The owner's last accepted edit is what the log folds to, whatever the other clients do afterwards. */
  lemma LastEditSurvives(w: World, commit: Step, h: Held, entry: Value, steps: seq<Step>)
    requires Honest(w) && Accepted(w, commit) && h == w.held[commit.client]
    requires EditEntry(h.edit, EntryOf(FoldContents(w.log), h.id)) == Some(entry)
    requires EntryOf(FoldContents(w.log), h.id).Some? ==> !Newer(EntryOf(FoldContents(w.log), h.id).value, entry)
    requires var v := Next(w, commit);
      forall i :: 0 <= i < |steps| ==> Spares(Run(v, steps[..i]), steps[i], h.id, entry)
    ensures EntryOf(FoldContents(Run(Next(w, commit), steps).log), h.id) == Some(entry)
  {
    NextHonest(w, commit);
    NextEntry(w, commit, h.id);
    EntryStays(Next(w, commit), steps, h.id, entry);
  }

  /** What no accepted edit addresses and no other client writes to comes out unchanged, parseable or not. */
  lemma {:induction false} OthersUntouched(w: World, steps: seq<Step>, name: string, id: string)
    requires Honest(w)
    requires forall i :: 0 <= i < |steps| && steps[i].Foreign? ==>
      Element(steps[i].delta, name, id) == None
      && (Get(steps[i].delta, name).Some? ==> Get(steps[i].delta, name).value.Object?)
    requires name == SESSIONS ==> forall i :: 0 <= i < |steps| && Accepted(Run(w, steps[..i]), steps[i]) ==>
      Run(w, steps[..i]).held[steps[i].client].id != id
    ensures Element(FoldContents(Run(w, steps).log), name, id) == Element(FoldContents(w.log), name, id)
  {
    if steps != [] {
      var n := |steps| - 1;
      var before := Run(w, steps[..n]);
      forall i | 0 <= i < n ensures steps[..n][..i] == steps[..i] {}
      OthersUntouched(w, steps[..n], name, id);
      RunHonest(w, steps[..n]);
      if Accepted(before, steps[n]) {
        var h := before.held[steps[n].client];
        AcceptedIsCurrent(before, steps[n]);
        EditTouchesOneEntry(h.edit, FoldContents(before.log), h.id);
        if name == SESSIONS {
          assert EntryOf(h.content, id) == EntryOf(FoldContents(before.log), id);
        }
      } else if steps[n].Foreign? {
        ElementStep(before.log, steps[n].delta, name, id);
      }
    }
  }
}
