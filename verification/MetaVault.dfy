/** The META vault, opened for reading and writing: crates/heyl-app/src/meta_vault.rs. */
module MetaVault {
  import opened Wrappers
  import opened OrderedMap
  import opened Bytes
  import opened Merge
  import opened Meta
  import opened MetaLog
  import opened Serialize

  /** The vault's storable key, which opens and seals its content. */
  datatype Key = Key(seal: (nat, Blob) -> Blob, unseal: Blob -> Option<Blob>)

  ghost predicate Authentic(key: Key) {
    forall nonce, plaintext :: key.unseal(key.seal(nonce, plaintext)) == Some(plaintext)
  }

  datatype Stored = Stored(id: nat, blob: Blob)

  datatype Failure = NoCommits | Unsealable | BadContent(error: VaultError) | GuardRejected

  // ---- what a log of blobs stands for

  function Plain(key: Key, codec: Codec, blob: Blob): Result<Document, Failure> {
    var plaintext :- key.unseal(blob).OkOr(Unsealable);
    Decode(codec, plaintext).MapErr(e => BadContent(e))
  }

  /** Every commit decoded, in order; the first that cannot be decides otherwise. */
  function Documents(key: Key, codec: Codec, commits: seq<Stored>): Result<seq<Document>, Failure> {
    if commits == [] then Ok([])
    else
      var earlier :- Documents(key, codec, commits[..|commits| - 1]);
      var document :- Plain(key, codec, commits[|commits| - 1].blob);
      Ok(earlier + [document])
  }

  function Folded(key: Key, codec: Codec, commits: seq<Stored>): Result<Document, Failure> {
    if commits == [] then Err(NoCommits)
    else
      var documents :- Documents(key, codec, commits);
      State(documents).MapErr(e => BadContent(e))
  }

  lemma PlainMeaning(key: Key, codec: Codec, blob: Blob, d: Document, e: VaultError)
    ensures Plain(key, codec, blob) == Err(Unsealable) <==> key.unseal(blob) == None
    ensures Plain(key, codec, blob) == Ok(d) <==>
      key.unseal(blob).Some? && Decode(codec, key.unseal(blob).value) == Ok(d)
    ensures Plain(key, codec, blob) == Err(BadContent(e)) <==>
      key.unseal(blob).Some? && Decode(codec, key.unseal(blob).value) == Err(e)
  {
    hide Decode;
  }

  /** A log reads exactly when every commit of it does, to their documents in order; else as the first that does not. */
  lemma {:induction false} DocumentsMeaning(key: Key, codec: Codec, commits: seq<Stored>)
    ensures var r := Documents(key, codec, commits);
      && (r.Ok? <==> forall i :: 0 <= i < |commits| ==> Plain(key, codec, commits[i].blob).Ok?)
      && (r.Ok? ==> |r.value| == |commits|
                    && forall i :: 0 <= i < |commits| ==> Plain(key, codec, commits[i].blob) == Ok(r.value[i]))
      && (r.Err? ==> exists i :: 0 <= i < |commits| && Plain(key, codec, commits[i].blob) == Err(r.error)
                                 && forall j :: 0 <= j < i ==> Plain(key, codec, commits[j].blob).Ok?)
  {
    hide Plain;
    if commits != [] {
      var n := |commits| - 1;
      DocumentsMeaning(key, codec, commits[..n]);
      assert forall i :: 0 <= i < n ==> commits[..n][i] == commits[i];
    }
  }

  /** Only a log with no commits folds to nothing. */
  lemma FoldedRefuses(key: Key, codec: Codec, commits: seq<Stored>)
    ensures Folded(key, codec, commits) == Err(NoCommits) <==> commits == []
    ensures commits != [] ==> (Folded(key, codec, commits).Ok? <==> Documents(key, codec, commits).Ok?)
  {
    hide Decode;
    if commits != [] {
      DocumentsMeaning(key, codec, commits);
    }
  }

  // ---- opening and committing

  class Backend {
    var commits: seq<Stored>
    var nextId: nat

    ghost predicate Valid()
      reads this
    {
      && (forall i, j :: 0 <= i < j < |commits| ==> commits[i].id < commits[j].id)
      && (forall i :: 0 <= i < |commits| ==> commits[i].id < nextId)
    }

    constructor (first: Blob)
      ensures Valid() && |commits| == 1 && commits[0].blob == first
    {
      commits, nextId := [Stored(0, first)], 1;
    }

    /** Take a commit made against the newest one; refuse any other. */
    method CreateCommit(latest: nat, blob: Blob) returns (r: Result<nat, Failure>)
      requires Valid()
      modifies this
      ensures Valid()
      ensures r.Ok? <==> old(commits) != [] && old(commits)[|old(commits)| - 1].id == latest
      ensures r.Ok? ==> commits == old(commits) + [Stored(r.value, blob)] && r.value == old(nextId)
      ensures nextId == old(nextId) + if r.Ok? then 1 else 0
      ensures r.Ok? ==> forall i :: 0 <= i < |old(commits)| ==> old(commits)[i].id != r.value
      ensures r.Err? ==> r.error == GuardRejected && commits == old(commits)
    {
      if commits == [] || commits[|commits| - 1].id != latest {
        return Err(GuardRejected);
      }
      r := Ok(nextId);
      commits, nextId := commits + [Stored(nextId, blob)], nextId + 1;
    }
  }

  class MetaVault {
    const key: Key
    const codec: Codec
    const latestCommit: nat
    var document: Document

    constructor (key: Key, codec: Codec, latestCommit: nat, document: Document)
      ensures this.key == key && this.codec == codec && this.latestCommit == latestCommit && this.document == document
    {
      this.key, this.codec, this.latestCommit, this.document := key, codec, latestCommit, document;
    }

    /** Seal the edited document whole and commit it against the commit it was read from. */
    method Commit(backend: Backend, nonce: nat) returns (r: Result<nat, Failure>)
      requires backend.Valid()
      modifies backend
      ensures backend.Valid()
      ensures Encoded(codec, document).Err? ==> r == Err(BadContent(Encoded(codec, document).error))
      ensures Encoded(codec, document).Ok? && r.Err? ==> r.error == GuardRejected
      ensures r.Ok? <==>
        && Encoded(codec, document).Ok?
        && old(backend.commits) != [] && old(backend.commits)[|old(backend.commits)| - 1].id == latestCommit
      ensures backend.commits == old(backend.commits) +
        if r.Ok? then [Stored(r.value, key.seal(nonce, Encoded(codec, document).value))] else []
    {
      var blob := Encode(codec, document);
      if blob.Err? {
        return Err(BadContent(blob.error));
      }
      r := backend.CreateCommit(latestCommit, key.seal(nonce, blob.value));
    }
  }

  lemma DocumentsNext(key: Key, codec: Codec, commits: seq<Stored>, i: nat)
    requires i < |commits| && Documents(key, codec, commits[..i]).Ok?
    ensures Documents(key, codec, commits[..i + 1]) ==
      match Plain(key, codec, commits[i].blob)
      case Err(f) => Err(f)
      case Ok(document) => Ok(Documents(key, codec, commits[..i]).value + [document])
  {
    assert commits[..i + 1][..i] == commits[..i];
  }

  /** Unseal and decode every commit, in order, up to the first that cannot be. */
  method ReadAll(key: Key, codec: Codec, commits: seq<Stored>) returns (r: Result<seq<Document>, Failure>)
    ensures r == Documents(key, codec, commits)
  {
    var documents: seq<Document> := [];
    assert Documents(key, codec, commits[..0]) == Ok(documents);
    hide Decode, Documents;
    for i := 0 to |commits|
      invariant Documents(key, codec, commits[..i]) == Ok(documents)
    {
      DocumentsNext(key, codec, commits, i);
      var plaintext := key.unseal(commits[i].blob);
      if plaintext == None {
        EarlyFailure(key, codec, commits, i + 1);
        return Err(Unsealable);
      }
      var decoded := Decode(codec, plaintext.value);
      if decoded.Err? {
        EarlyFailure(key, codec, commits, i + 1);
        return Err(BadContent(decoded.error));
      }
      documents := documents + [decoded.value];
    }
    assert commits[..|commits|] == commits;
    r := Ok(documents);
  }

  /** Open the vault: read every commit, fold them, and remember the newest. */
  method Open(key: Key, codec: Codec, backend: Backend) returns (r: Result<Document, Failure>, vault: MetaVault?)
    ensures r == Folded(key, codec, backend.commits)
    ensures r.Err? <==> vault == null
    ensures vault != null ==>
      && fresh(vault)
      && vault.key == key && vault.codec == codec && vault.document == r.value
      && backend.commits != [] && vault.latestCommit == backend.commits[|backend.commits| - 1].id
  {
    hide Documents, State, Decode, FoldContents, Contents;
    vault := null;
    var commits := backend.commits;
    if commits == [] {
      return Err(NoCommits), null;
    }
    var latest := commits[|commits| - 1].id;
    var documents := ReadAll(key, codec, commits);
    if documents.Err? {
      return Err(documents.error), null;
    }
    var folded := FoldCommits(documents.value);
    if folded.Err? {
      return Err(BadContent(folded.error)), null;
    }
    vault := new MetaVault(key, codec, latest, folded.value);
    r := Ok(folded.value);
  }

  lemma {:induction false} EarlyFailure(key: Key, codec: Codec, commits: seq<Stored>, n: nat)
    requires n <= |commits| && Documents(key, codec, commits[..n]).Err?
    ensures Documents(key, codec, commits) == Documents(key, codec, commits[..n])
    decreases |commits|
  {
    if n == |commits| {
      assert commits[..n] == commits;
    } else {
      assert commits[..|commits| - 1][..n] == commits[..n];
      EarlyFailure(key, codec, commits[..|commits| - 1], n);
    }
  }

  lemma DocumentsCount(key: Key, codec: Codec, commits: seq<Stored>)
    requires Documents(key, codec, commits).Ok?
    ensures |Documents(key, codec, commits).value| == |commits|
  {
  }

  // ---- what a reader sees after a commit

  /** What was sealed and framed by `Commit` opens as the document that was committed. */
  lemma CommitReadsBack(key: Key, codec: Codec, nonce: nat, document: Document)
    requires Authentic(key) && Ideal(codec) && Encoded(codec, document).Ok?
    ensures Plain(key, codec, key.seal(nonce, Encoded(codec, document).value)) == Ok(document)
  {
    assert key.unseal(key.seal(nonce, Encoded(codec, document).value)) == Some(Encoded(codec, document).value);
    EncodeDecode(codec, document);
  }

  /** One more readable commit is one more merge. */
  lemma FoldedAppend(key: Key, codec: Codec, commits: seq<Stored>, next: Stored, document: Document)
    requires Folded(key, codec, commits).Ok? && Plain(key, codec, next.blob) == Ok(document)
    ensures Folded(key, codec, commits + [next])
         == Ok(document.(content := MergeContents(Folded(key, codec, commits).value.content, document.content)))
  {
    var documents := Documents(key, codec, commits).value;
    DocumentsCount(key, codec, commits);
    assert (commits + [next])[..|commits|] == commits;
    assert Documents(key, codec, commits + [next]) == Ok(documents + [document]);
    assert Contents(documents + [document]) == Contents(documents) + [document.content];
    FoldAppend(MergeLists, Contents(documents), document.content);
  }

  /**
   * Open, edit one's own entry, commit, open again: the second reader sees exactly the edited document,
   * or, when the edit's stamp was older than the entry it meant to replace, exactly the first.
   */
  lemma EditThenReopen(key: Key, codec: Codec, commits: seq<Stored>, edit: Edit, id: string, next: Stored, nonce: nat)
    requires Authentic(key) && Ideal(codec)
    requires Folded(key, codec, commits).Ok?
    requires Edited(edit, Folded(key, codec, commits).value.content, id).Ok?
    requires var document := Folded(key, codec, commits).value;
      var blob := Encoded(codec, document.(content := Edited(edit, document.content, id).value));
      blob.Ok? && next.blob == key.seal(nonce, blob.value)
    ensures var document := Folded(key, codec, commits).value;
      Folded(key, codec, commits + [next])
      == Ok(if Stale(edit, document.content, id) then document
              else document.(content := Edited(edit, document.content, id).value))
  {
    var document := Folded(key, codec, commits).value;
    var committed := document.(content := Edited(edit, document.content, id).value);
    CommitReadsBack(key, codec, nonce, committed);
    FoldedAppend(key, codec, commits, next, committed);
    CommitWholeState(edit, document.content, id);
  }
}
