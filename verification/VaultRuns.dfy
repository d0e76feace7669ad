/**
 * Many clients on one sealed log: crates/heyl-app/src/meta_vault.rs over crates/heyl-vault. What the
 * backend holds is blobs and commit ids; every run on them is a run on contents.
 */
module VaultRuns {
  import opened Wrappers
  import opened OrderedMap
  import opened Bytes
  import opened Json
  import opened Merge
  import opened Meta
  import opened Serialize
  import opened MetaVault
  import MetaLog

  // ---- runs on blobs

  /** An edited document a client means to commit, and the commit it was read at. */
  datatype Draft = Draft(document: Document, latest: nat, id: string, edit: Edit)

  datatype Vault = Vault(commits: seq<Stored>, nextId: nat, drafts: map<nat, Draft>)

  datatype Event =
    | Open(client: nat, id: string, edit: Edit)
    | Commit(client: nat, nonce: nat)
    | Foreign(blob: Blob)

  function Appended(v: Vault, blob: Blob): Vault {
    v.(commits := v.commits + [Stored(v.nextId, blob)], nextId := v.nextId + 1)
  }

  predicate Newest(v: Vault, id: nat) { v.commits != [] && v.commits[|v.commits| - 1].id == id }

  function Opened(key: Key, codec: Codec, v: Vault, id: string, edit: Edit): Option<Draft> {
    match Folded(key, codec, v.commits)
    case Err(_) => None
    case Ok(document) =>
      match Edited(edit, document.content, id)
      case Err(_) => None
      case Ok(content) => Some(Draft(document.(content := content), v.commits[|v.commits| - 1].id, id, edit))
  }

  function Next(key: Key, codec: Codec, v: Vault, e: Event): Vault {
    match e
    case Open(client, id, edit) =>
      (match Opened(key, codec, v, id, edit)
       case Some(draft) => v.(drafts := v.drafts[client := draft])
       case None => v)
    case Commit(client, nonce) =>
      if client !in v.drafts then v
      else
        var rest := v.(drafts := v.drafts - {client});
        (match Encoded(codec, v.drafts[client].document)
         case Ok(blob) => if Newest(v, v.drafts[client].latest) then Appended(rest, key.seal(nonce, blob)) else rest
         case Err(_) => rest)
    case Foreign(blob) => Appended(v, blob)
  }

  function Run(key: Key, codec: Codec, v: Vault, events: seq<Event>): Vault {
    if events == [] then v
    else Next(key, codec, Run(key, codec, v, events[..|events| - 1]), events[|events| - 1])
  }

  /** A draft is committed once: if it encodes and names the newest commit it lands, sealed whole; it is gone anyway. */
  lemma CommitLands(key: Key, codec: Codec, v: Vault, client: nat, nonce: nat)
    ensures var after := Next(key, codec, v, Commit(client, nonce));
      var lands := client in v.drafts && Encoded(codec, v.drafts[client].document).Ok?
                   && v.commits != [] && v.commits[|v.commits| - 1].id == v.drafts[client].latest;
      && after.commits == v.commits +
         (if lands then [Stored(v.nextId, key.seal(nonce, Encoded(codec, v.drafts[client].document).value))] else [])
      && after.nextId == v.nextId + (if lands then 1 else 0)
      && after.drafts == v.drafts - {client}
  {
    hide Encoded;
  }

  // ---- the run on contents that stands for it

  /** A draft that does not encode never reaches the backend. */
  function StepOf(key: Key, codec: Codec, v: Vault, e: Event): MetaLog.Step
    requires e.Foreign? ==> Plain(key, codec, e.blob).Ok?
  {
    match e
    case Open(client, id, edit) => MetaLog.Open(client, id, edit)
    case Commit(client, _) =>
      if client in v.drafts && Encoded(codec, v.drafts[client].document).Err? then MetaLog.Abandon(client)
      else MetaLog.Commit(client)
    case Foreign(blob) => MetaLog.Foreign(Plain(key, codec, blob).value.content)
  }

  /** Other clients' commits can be read. */
  ghost predicate Readable(key: Key, codec: Codec, events: seq<Event>) {
    forall i :: 0 <= i < |events| && events[i].Foreign? ==> Plain(key, codec, events[i].blob).Ok?
  }

  function StepsOf(key: Key, codec: Codec, v: Vault, events: seq<Event>): (steps: seq<MetaLog.Step>)
    requires Readable(key, codec, events)
    ensures |steps| == |events|
  {
    if events == [] then []
    else
      var n := |events| - 1;
      StepsOf(key, codec, v, events[..n]) + [StepOf(key, codec, Run(key, codec, v, events[..n]), events[n])]
  }

  ghost predicate Increasing(commits: seq<Stored>, nextId: nat) {
    && (forall i, j :: 0 <= i < j < |commits| ==> commits[i].id < commits[j].id)
    && (forall i :: 0 <= i < |commits| ==> commits[i].id < nextId)
  }

  /** A draft stands for what a client of the log holds: the guard is the place of the commit it was read at. */
  predicate DraftOf(v: Vault, h: MetaLog.Held, d: Draft) {
    && 0 < h.guard <= |v.commits| && v.commits[h.guard - 1].id == d.latest
    && h.content == d.document.content && h.id == d.id && h.edit == d.edit
  }

  ghost predicate Represents(key: Key, codec: Codec, v: Vault, w: MetaLog.World) {
    && v.commits != [] && Increasing(v.commits, v.nextId)
    && Documents(key, codec, v.commits).Ok?
    && w.log == Contents(Documents(key, codec, v.commits).value)
    && w.held.Keys == v.drafts.Keys
    && forall c :: c in v.drafts ==> DraftOf(v, w.held[c], v.drafts[c])
  }

  lemma FoldedIs(key: Key, codec: Codec, v: Vault, w: MetaLog.World)
    requires Represents(key, codec, v, w)
    ensures |w.log| == |v.commits|
    ensures Folded(key, codec, v.commits).Ok? && Folded(key, codec, v.commits).value.content == FoldContents(w.log)
  {
    DocumentsCount(key, codec, v.commits);
  }

  /** Appending a blob that reads as a document is appending its content. */
  lemma AppendedRepresents(key: Key, codec: Codec, v: Vault, w: MetaLog.World, blob: Blob)
    requires Represents(key, codec, v, w) && Plain(key, codec, blob).Ok?
    ensures Represents(key, codec, Appended(v, blob), w.(log := w.log + [Plain(key, codec, blob).value.content]))
  {
    var next := Stored(v.nextId, blob);
    var document := Plain(key, codec, blob).value;
    var documents := Documents(key, codec, v.commits).value;
    assert (v.commits + [next])[..|v.commits|] == v.commits;
    assert Documents(key, codec, v.commits + [next]) == Ok(documents + [document]);
    assert Contents(documents + [document]) == Contents(documents) + [document.content];
  }

  /** The guard by commit id is the guard by place. */
  lemma SameGuard(v: Vault, h: MetaLog.Held, d: Draft)
    requires v.commits != [] && Increasing(v.commits, v.nextId) && DraftOf(v, h, d)
    ensures Newest(v, d.latest) <==> h.guard == |v.commits|
  {
    var n := |v.commits| - 1;
    if h.guard - 1 < n { assert v.commits[h.guard - 1].id < v.commits[n].id; }
  }

  lemma WithoutDraft(key: Key, codec: Codec, v: Vault, w: MetaLog.World, client: nat)
    requires Represents(key, codec, v, w)
    ensures Represents(key, codec, v.(drafts := v.drafts - {client}), w.(held := w.held - {client}))
  {
    hide Documents, Contents, Increasing;
  }

  lemma WithDraft(key: Key, codec: Codec, v: Vault, w: MetaLog.World, client: nat, h: MetaLog.Held, d: Draft)
    requires Represents(key, codec, v, w) && DraftOf(v, h, d)
    ensures Represents(key, codec, v.(drafts := v.drafts[client := d]), w.(held := w.held[client := h]))
  {
    hide Documents, Contents, Increasing;
  }

  lemma OpenRepresents(key: Key, codec: Codec, v: Vault, w: MetaLog.World, e: Event)
    requires Represents(key, codec, v, w) && e.Open?
    ensures Represents(key, codec, Next(key, codec, v, e), MetaLog.Next(w, StepOf(key, codec, v, e)))
  {
    FoldedIs(key, codec, v, w);
    var edited := Edited(e.edit, FoldContents(w.log), e.id);
    hide Represents, Folded, FoldContents, Edited, Increasing;
    if edited.Ok? {
      var draft := Opened(key, codec, v, e.id, e.edit).value;
      WithDraft(key, codec, v, w, e.client, MetaLog.Held(edited.value, |w.log|, e.id, e.edit), draft);
    }
  }

  lemma CommitRepresents(key: Key, codec: Codec, v: Vault, w: MetaLog.World, e: Event)
    requires Authentic(key) && Ideal(codec) && Represents(key, codec, v, w)
    requires e.Commit?
    ensures Represents(key, codec, Next(key, codec, v, e), MetaLog.Next(w, StepOf(key, codec, v, e)))
  {
    if e.client !in v.drafts {
      return;
    }
    var draft := v.drafts[e.client];
    FoldedIs(key, codec, v, w);
    WithoutDraft(key, codec, v, w, e.client);
    SameGuard(v, w.held[e.client], draft);
    hide Represents, Folded, Increasing, Plain, Encoded, Authentic, Ideal, DraftOf, FoldContents;
    if Encoded(codec, draft.document).Ok? {
      CommitReadsBack(key, codec, e.nonce, draft.document);
      AppendedRepresents(key, codec, v.(drafts := v.drafts - {e.client}), w.(held := w.held - {e.client}),
                         key.seal(e.nonce, Encoded(codec, draft.document).value));
    }
  }

  /** One event on blobs is one step on contents. */
  lemma NextRepresents(key: Key, codec: Codec, v: Vault, w: MetaLog.World, e: Event)
    requires Authentic(key) && Ideal(codec) && Represents(key, codec, v, w)
    requires e.Foreign? ==> Plain(key, codec, e.blob).Ok?
    ensures Represents(key, codec, Next(key, codec, v, e), MetaLog.Next(w, StepOf(key, codec, v, e)))
  {
    hide Represents, Authentic, Ideal, Plain;
    match e
    case Open(_, _, _) => OpenRepresents(key, codec, v, w, e);
    case Foreign(blob) => AppendedRepresents(key, codec, v, w, blob);
    case Commit(client, _) => CommitRepresents(key, codec, v, w, e);
  }

  /** Every run on blobs is a run on contents. */
  lemma {:induction false} RunRepresents(key: Key, codec: Codec, v: Vault, w: MetaLog.World, events: seq<Event>)
    requires Authentic(key) && Ideal(codec) && Represents(key, codec, v, w) && Readable(key, codec, events)
    ensures Represents(key, codec, Run(key, codec, v, events), MetaLog.Run(w, StepsOf(key, codec, v, events)))
  {
    if events != [] {
      var n := |events| - 1;
      var steps := StepsOf(key, codec, v, events);
      RunRepresents(key, codec, v, w, events[..n]);
      assert steps[..n] == StepsOf(key, codec, v, events[..n]);
      NextRepresents(key, codec, Run(key, codec, v, events[..n]), MetaLog.Run(w, steps[..n]), events[n]);
    }
  }

  /**
   * Over every run of every client on the sealed log: it can always be opened, and under each id it opens to
   * that id's own register.
   */
  lemma SealedLogIsRegisters(key: Key, codec: Codec, v: Vault, w: MetaLog.World, events: seq<Event>, id: string)
    requires Authentic(key) && Ideal(codec) && Readable(key, codec, events)
    requires Represents(key, codec, v, w) && MetaLog.Honest(w)
    ensures var read := Folded(key, codec, Run(key, codec, v, events).commits);
      && read.Ok?
      && EntryOf(read.value.content, id)
         == MetaLog.Register(w, StepsOf(key, codec, v, events), id, EntryOf(FoldContents(w.log), id))
  {
    RunRepresents(key, codec, v, w, events);
    FoldedIs(key, codec, Run(key, codec, v, events), MetaLog.Run(w, StepsOf(key, codec, v, events)));
    MetaLog.LogIsRegisters(w, StepsOf(key, codec, v, events), id);
  }

  /** A vault nobody has open yet is such a start. */
  lemma FreshVault(key: Key, codec: Codec, v: Vault)
    requires v.commits != [] && Increasing(v.commits, v.nextId) && v.drafts == map[]
        && Documents(key, codec, v.commits).Ok?
    ensures var w := MetaLog.World(Contents(Documents(key, codec, v.commits).value), map[]);
      Represents(key, codec, v, w) && MetaLog.Honest(w)
  {
  }
}
