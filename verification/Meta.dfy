/** The META vault's `sessions` map, edited in place: crates/heyl-vault/src/meta.rs. */
module Meta {
  import opened Wrappers
  import opened OrderedMap
  import opened Json
  import opened Merge
  import Text

  const SESSIONS := "sessions"

  /** One change to one session's entry. Stamps are the text of `Timestamp`'s `Display`. */
  datatype Edit =
    | Upsert(entry: Value)
    | Tombstone(now: string)
    | Rename(description: string, now: string)

  // ---- what an edit means

  function Stamped(entry: Content, now: string): Content {
    Put(Put(entry, "editTime", Str(now)), UPDATE_TIME, Str(now))
  }

  /** The entry after an edit; nothing when there is no entry to edit. */
  function EditEntry(edit: Edit, current: Option<Value>): Option<Value> {
    match edit
    case Upsert(entry) => Some(entry)
    case Tombstone(now) =>
      if current.Some? && current.value.Object?
      then Some(Object(Stamped(Put(current.value.fields, "isDeleted", Bool(true)), now)))
      else None
    case Rename(description, now) =>
      if current.Some? && current.value.Object?
      then Some(Object(Stamped(Put(current.value.fields, "description", Str(description)), now)))
      else None
  }

  /** The content with a `sessions` key, added empty at the end if there was none. */
  function WithSessions(content: Content): Content {
    if Get(content, SESSIONS).Some? then content else Put(content, SESSIONS, Object([]))
  }

  function Edited(edit: Edit, content: Content, id: string): Result<Content, VaultError> {
    var list := Get(WithSessions(content), SESSIONS).value;
    if !list.Object? then Err(NotADocument("`content.sessions` is not an object"))
    else match EditEntry(edit, Get(list.fields, id))
      case Some(entry) => Ok(Put(WithSessions(content), SESSIONS, Object(Put(list.fields, id, entry))))
      case None => Err(NotADocument("no session entry"))
  }

  function EntryOf(content: Content, id: string): Option<Value> { Element(content, SESSIONS, id) }

  // ---- the edits, in place

  class Editor {
    var document: Document

    constructor (start: Document)
      ensures document == start
    {
      document := start;
    }

    method SessionsMut() returns (list: Value)
      modifies this
      ensures document == old(document).(content := WithSessions(old(document.content)))
      ensures Get(document.content, SESSIONS) == Some(list)
    {
      if Get(document.content, SESSIONS) == None {
        document := document.(content := Put(document.content, SESSIONS, Object([])));
      }
      list := Get(document.content, SESSIONS).value;
    }

    /** Write our entry, replacing any earlier one. */
    method UpsertSession(id: string, entry: Value) returns (ok: bool)
      modifies this
      ensures ok == Edited(Upsert(entry), old(document.content), id).Ok?
      ensures document == old(document).(content :=
        if ok then Edited(Upsert(entry), old(document.content), id).value else WithSessions(old(document.content)))
    {
      var list := SessionsMut();
      if !list.Object? { return false; }
      document := document.(content := Put(document.content, SESSIONS, Object(Put(list.fields, id, entry))));
      ok := true;
    }

    /** Mark our entry deleted, keeping its key and every other field. */
    method TombstoneSession(id: string, now: string) returns (ok: bool)
      modifies this
      ensures ok == Edited(Tombstone(now), old(document.content), id).Ok?
      ensures document == old(document).(content :=
        if ok then Edited(Tombstone(now), old(document.content), id).value else WithSessions(old(document.content)))
    {
      hide Put, Get, Find;
      var list := SessionsMut();
      var entry := list.Field(id);
      if entry == None || !entry.value.Object? { return false; }
      var fields := Put(entry.value.fields, "isDeleted", Bool(true));
      fields := Put(fields, "editTime", Str(now));
      fields := Put(fields, UPDATE_TIME, Str(now));
      document := document.(content := Put(document.content, SESSIONS, Object(Put(list.fields, id, Object(fields)))));
      ok := true;
    }

    /** Change the description the phone shows. */
    method SetDescription(id: string, description: string, now: string) returns (ok: bool)
      modifies this
      ensures ok == Edited(Rename(description, now), old(document.content), id).Ok?
      ensures document == old(document).(content :=
        if ok then Edited(Rename(description, now), old(document.content), id).value
        else WithSessions(old(document.content)))
    {
      hide Put, Get, Find;
      var list := SessionsMut();
      var entry := list.Field(id);
      if entry == None || !entry.value.Object? { return false; }
      var fields := Put(entry.value.fields, "description", Str(description));
      fields := Put(fields, "editTime", Str(now));
      fields := Put(fields, UPDATE_TIME, Str(now));
      document := document.(content := Put(document.content, SESSIONS, Object(Put(list.fields, id, Object(fields)))));
      ok := true;
    }
  }

  /** An edit touches exactly one entry: every other list and every other id comes back out unchanged, in place. */
  lemma EditTouchesOneEntry(edit: Edit, content: Content, id: string)
    requires Edited(edit, content, id).Ok?
    ensures var e := Edited(edit, content, id).value;
      && EntryOf(e, id) == EditEntry(edit, EntryOf(content, id))
      && Keys(e) == Keys(WithSessions(content))
      && (forall name :: name != SESSIONS ==> Get(e, name) == Get(content, name))
      && (forall other :: other != id ==> EntryOf(e, other) == EntryOf(content, other))
  {
    var list := Get(WithSessions(content), SESSIONS).value;
    var e := Edited(edit, content, id).value;
    KeyAt(WithSessions(content), SESSIONS);
    forall other ensures EntryOf(content, other) == Get(list.fields, other) {
      if Get(content, SESSIONS) == None { KeyAt<Value>([], other); }
    }
  }

  lemma StampedField(entry: Content, now: string, key: string)
    ensures Get(Stamped(entry, now), key) ==
      if key == "editTime" || key == UPDATE_TIME then Some(Str(now)) else Get(entry, key)
  {
  }

  /** A tombstone or a new name changes its own field and the two clocks of the entry, nothing else. */
  lemma EditKeepsFields(edit: Edit, entry: Content, key: string)
    requires !edit.Upsert?
    ensures var e := EditEntry(edit, Some(Object(entry))).value;
      e.Field(key) ==
        if key == "editTime" || key == UPDATE_TIME then Some(Str(edit.now))
        else if edit.Tombstone? && key == "isDeleted" then Some(Bool(true))
        else if edit.Rename? && key == "description" then Some(Str(edit.description))
        else Get(entry, key)
  {
    hide Stamped, Find;
    match edit
    case Tombstone(now) => StampedField(Put(entry, "isDeleted", Bool(true)), now, key);
    case Rename(description, now) => StampedField(Put(entry, "description", Str(description)), now, key);
  }

  /** An edit goes through unless `sessions` is there and no object, or it needs an entry that is not there. */
  lemma EditAccepted(edit: Edit, content: Content, id: string)
    ensures Edited(edit, content, id).Ok? <==>
      match Get(content, "sessions")
      case None => edit.Upsert?
      case Some(list) =>
        list.Object? && (edit.Upsert? || (Get(list.fields, id).Some? && Get(list.fields, id).value.Object?))
  {
    if Get(content, SESSIONS) == None { KeyAt<Value>([], id); }
  }

  /** What an accepted edit leaves under its id, field by field, and where a field it adds goes. */
  lemma EditedEntry(edit: Edit, content: Content, id: string, key: string)
    requires Edited(edit, content, id).Ok?
    ensures var list := Get(Edited(edit, content, id).value, "sessions");
      && list.Some? && list.value.Object? && Get(list.value.fields, id).Some?
      && var entry := Get(list.value.fields, id).value;
         if edit.Upsert? then entry == edit.entry
         else
           && entry.Object? && Get(content, "sessions").Some? && Get(content, "sessions").value.Field(id).Some?
           && Get(content, "sessions").value.Field(id).value.Object?
           && var fields := Get(content, "sessions").value.Field(id).value.fields;
              && Keys(entry.fields)
                 == WithKey(WithKey(WithKey(Keys(fields), if edit.Tombstone? then "isDeleted" else "description"),
                                    "editTime"), "updateTime")
              && Get(entry.fields, key) ==
                 if key == "editTime" || key == "updateTime" then Some(Str(edit.now))
                 else if key == "isDeleted" && edit.Tombstone? then Some(Bool(true))
                 else if key == "description" && edit.Rename? then Some(Str(edit.description))
                 else Get(fields, key)
  {
    EditTouchesOneEntry(edit, content, id);
    var list := Get(WithSessions(content), SESSIONS).value;
    if !edit.Upsert? {
      var fields := Get(list.fields, id).value.fields;
      EditKeepsFields(edit, fields, key);
      EditKeepsOrder(edit, fields);
    }
  }

  /** A key that is not there goes last. */
  function WithKey(keys: seq<string>, key: string): seq<string> { if key in keys then keys else keys + [key] }

  lemma EditKeepsOrder(edit: Edit, fields: Content)
    requires !edit.Upsert?
    ensures Keys(EditEntry(edit, Some(Object(fields))).value.fields)
         == WithKey(WithKey(WithKey(Keys(fields), if edit.Tombstone? then "isDeleted" else "description"),
                            "editTime"), "updateTime")
  {
    var own := if edit.Tombstone? then "isDeleted" else "description";
    var value := if edit.Tombstone? then Bool(true) else Str(edit.description);
    var one := Put(fields, own, value);
    var two := Put(one, "editTime", Str(edit.now));
    PutKeys(fields, own, value);
    PutKeys(one, "editTime", Str(edit.now));
    PutKeys(two, "updateTime", Str(edit.now));
  }

  lemma PutKeys(fields: Content, key: string, value: Value)
    ensures Keys(Put(fields, key, value)) == WithKey(Keys(fields), key)
  {
    KeyAt(fields, key);
  }

  // ---- names

  /** What the library's parsers make of a session id and of an entry. */
  datatype Reader = Reader(id: string -> Option<string>, entry: Value -> Option<SessionMetadata>)

  datatype SessionMetadata = SessionMetadata(description: Option<string>, isDeleted: bool)

  /** What `sessions` holds, parseable or not. */
  function Listed(content: Content): seq<Entry<Value>> {
    match Get(content, SESSIONS)
    case Some(list) => if list.Object? then list.fields else []
    case None => []
  }

  lemma ListedIs(content: Content, entries: Content)
    ensures Get(content, "sessions") == Some(Object(entries)) ==> Listed(content) == entries
    ensures Get(content, "sessions") == None || !Get(content, "sessions").value.Object? ==> Listed(content) == []
  {
  }

  /** Every entry that parses, in document order. */
  function Sessions(reader: Reader, content: Content): seq<(string, SessionMetadata)> {
    Parsed(reader, Listed(content))
  }

  function Parsed(reader: Reader, entries: seq<Entry<Value>>): seq<(string, SessionMetadata)> {
    if entries == [] then []
    else match (reader.id(entries[0].key), reader.entry(entries[0].value))
      case (Some(id), Some(entry)) => [(id, entry)] + Parsed(reader, entries[1..])
      case _ => Parsed(reader, entries[1..])
  }

  lemma {:induction false} ParsedInOrder(reader: Reader, a: seq<Entry<Value>>, b: seq<Entry<Value>>)
    ensures Parsed(reader, a + b) == Parsed(reader, a) + Parsed(reader, b)
  {
    if a == [] {
      assert a + b == b;
    } else {
      assert (a + b)[1..] == a[1..] + b && (a + b)[0] == a[0];
      ParsedInOrder(reader, a[1..], b);
    }
  }

  /** The descriptions live sessions hold. */
  function Taken(sessions: seq<(string, SessionMetadata)>, live: set<string>): seq<string> {
    if sessions == [] then []
    else
      var (id, entry) := sessions[0];
      var rest := Taken(sessions[1..], live);
      if !entry.isDeleted && id in live && entry.description.Some? then [entry.description.value] + rest else rest
  }

  /** A name is taken by an entry that parses, is not deleted, belongs to a live session, and shows it. */
  ghost predicate Holds(reader: Reader, entries: seq<Entry<Value>>, live: set<string>, name: string, i: nat) {
    && i < |entries|
    && reader.id(entries[i].key).Some? && reader.id(entries[i].key).value in live
    && reader.entry(entries[i].value) == Some(SessionMetadata(Some(name), false))
  }

  lemma {:induction false} TakenMeaning(reader: Reader, entries: seq<Entry<Value>>, live: set<string>, name: string)
    ensures name in Taken(Parsed(reader, entries), live) <==> exists i :: Holds(reader, entries, live, name, i)
  {
    if entries != [] {
      TakenMeaning(reader, entries[1..], live, name);
      if i: nat :| Holds(reader, entries, live, name, i) && i > 0 {
        assert Holds(reader, entries[1..], live, name, i - 1);
      }
      if i: nat :| Holds(reader, entries[1..], live, name, i) {
        assert Holds(reader, entries, live, name, i + 1);
      }
      if reader.id(entries[0].key).Some? && reader.entry(entries[0].value).Some? {
        var head := (reader.id(entries[0].key).value, reader.entry(entries[0].value).value);
        assert Parsed(reader, entries) == [head] + Parsed(reader, entries[1..]);
        assert Parsed(reader, entries)[1..] == Parsed(reader, entries[1..]);
        if name in Taken(Parsed(reader, entries), live) && name !in Taken(Parsed(reader, entries[1..]), live) {
          assert Holds(reader, entries, live, name, 0);
        }
      }
    }
  }

  /** `Chrome`, `Chrome (2)`, `Chrome (3)`. */
  function Candidate(description: string, k: nat): string
    requires k >= 1
  {
    if k == 1 then description else description + " (" + Text.Decimal(k) + ")"
  }

  lemma CandidateNumber(description: string, k: nat)
    requires k >= 2
    ensures var c := Candidate(description, k);
      |c| > |description| + 3 && c[|description| + 2..|c| - 1] == Text.Decimal(k)
  {
  }

  /** The first three candidates, written out. */
  lemma FirstCandidates(description: string)
    ensures Candidate(description, 1) == description
    ensures Candidate(description, 2) == description + " (2)"
    ensures Candidate(description, 3) == description + " (3)"
  {
    assert Text.Decimal(2) == "2" && Text.Decimal(3) == "3";
    assert description + " (" + "2" + ")" == description + " (2)";
    assert description + " (" + "3" + ")" == description + " (3)";
  }

  lemma CandidatesDiffer(description: string, j: nat, k: nat)
    requires 1 <= j < k
    ensures Candidate(description, j) != Candidate(description, k)
  {
    CandidateNumber(description, k);
    if j > 1 { CandidateNumber(description, j); }
  }

  function Candidates(description: string, n: nat): (names: set<string>)
    ensures forall k :: 1 <= k <= n ==> Candidate(description, k) in names
    ensures forall name :: name in names ==> exists k: nat :: 1 <= k <= n && name == Candidate(description, k)
  {
    if n == 0 then {} else Candidates(description, n - 1) + {Candidate(description, n)}
  }

  lemma {:induction false} CountCandidates(description: string, n: nat)
    ensures |Candidates(description, n)| == n
  {
    if n > 0 {
      CountCandidates(description, n - 1);
      if Candidate(description, n) in Candidates(description, n - 1) {
        var k: nat :| 1 <= k <= n - 1 && Candidate(description, n) == Candidate(description, k);
        CandidatesDiffer(description, k, n);
      }
    }
  }

  /** Pigeonhole: that many candidates are taken only if that many names are. */
  lemma {:induction false} TakenBound(names: set<string>, taken: seq<string>)
    requires forall name :: name in names ==> name in taken
    ensures |names| <= |taken|
  {
    if taken != [] {
      var rest := names - {taken[0]};
      TakenBound(rest, taken[1..]);
      if taken[0] in names { assert names == rest + {taken[0]}; } else { assert names == rest; }
    } else {
      assert names == {};
    }
  }

  lemma AllTaken(description: string, taken: seq<string>, n: nat)
    requires forall k :: 1 <= k <= n ==> Candidate(description, k) in taken
    ensures n <= |taken|
  {
    CountCandidates(description, n);
    TakenBound(Candidates(description, n), taken);
  }

  const U32_MAX: nat := 0xFFFF_FFFF

  /** `k` numbers the first candidate nobody holds. */
  predicate FirstFree(description: string, taken: seq<string>, k: nat) {
    && 1 <= k
    && Candidate(description, k) !in taken
    && forall j :: 1 <= j < k ==> Candidate(description, j) in taken
  }

  /** A display name no live device uses; nothing when the 32-bit counter would overflow. */
  method Disambiguate(reader: Reader, description: string, content: Content, live: set<string>)
    returns (name: Option<string>)
    ensures var taken := Taken(Sessions(reader, content), live);
      && (name.Some? ==> exists k: nat ::
            k <= |taken| + 1 && FirstFree(description, taken, k) && name.value == Candidate(description, k))
      && (|taken| < 4_294_967_295 ==> name.Some?)
      && (name == None <==> forall k :: 1 <= k <= 4_294_967_295 ==> Candidate(description, k) in taken)
    ensures name.Some? ==> forall i :: !Holds(reader, Listed(content), live, name.value, i)
  {
    hide Taken, Listed, Parsed, Holds, Text.Decimal;
    var taken := Taken(Sessions(reader, content), live);
    var candidate := description;
    var counter := 1;
    while candidate in taken
      invariant 1 <= counter <= U32_MAX
      invariant candidate == Candidate(description, counter)
      invariant forall j :: 1 <= j < counter ==> Candidate(description, j) in taken
      decreases U32_MAX - counter
    {
      if counter == U32_MAX {
        AllTaken(description, taken, U32_MAX);
        return None;
      }
      counter := counter + 1;
      candidate := description + " (" + Text.Decimal(counter) + ")";
    }
    AllTaken(description, taken, counter - 1);
    TakenMeaning(reader, Listed(content), live, candidate);
    name := Some(candidate);
  }
}
