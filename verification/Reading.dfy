/**
 * What it takes for a login vault to open, and so to be searched: `open_vault` of
 * crates/heyl-app/src/get.rs:378-450, over the key chain and the fold.
 */
module Reading {
  import opened Wrappers
  import opened Bytes
  import opened Merge
  import opened Serialize
  import opened MetaVault
  import Keys
  import Get

  /** A vault as the backend serves it: its lock, if there is one, and its sealed commits. */
  datatype Served = Served(
    id: string, vaultType: Get.VaultType, organization: Option<string>, team: Option<string>,
    lock: Option<Keys.VaultLock>, commits: seq<Stored>)

  /** What a reader brings: its keys and the profiles it knows, and how the library reads secrets, blobs and logins. */
  datatype Reader = Reader(
    p: Keys.Primitives, keys: Keys.AuthenticatorKeys, profiles: seq<Keys.Profile>,
    content: Blob -> Key, codec: Codec, logins: Content -> seq<Get.Login>)

  /** The content a vault opens to; a vault with no commits opens empty. */
  function Opened(reader: Reader, v: Served): Option<Content>
    requires Keys.Ideal(reader.p)
  {
    match v.lock
    case None => None
    case Some(lock) =>
      match Keys.OpenVault(reader.p, reader.keys, reader.profiles, lock)
      case Err(_) => None
      case Ok((secret, _)) =>
        if v.commits == [] then Some([])
        else match Folded(reader.content(secret), reader.codec, v.commits)
          case Ok(document) => Some(document.content)
          case Err(_) => None
  }

  /** A vault opens exactly when its lock does, and every commit of it unseals and decodes under the lock's secret. */
  lemma OpenedMeaning(reader: Reader, v: Served, content: Content)
    requires Keys.Ideal(reader.p)
    ensures Opened(reader, v) == Some(content) <==>
      && v.lock.Some?
      && exists secret, protected, documents ::
           && Keys.OpenVault(reader.p, reader.keys, reader.profiles, v.lock.value) == Ok((secret, protected))
           && Documents(reader.content(secret), reader.codec, v.commits) == Ok(documents)
           && content == FoldContents(Contents(documents))
  {
    hide Keys.OpenVault, Keys.Ideal, FoldContents;
    assert FoldContents(Contents([])) == [] by { NothingFolded(); }
    if v.lock.Some? && Keys.OpenVault(reader.p, reader.keys, reader.profiles, v.lock.value).Ok? {
      var secret := Keys.OpenVault(reader.p, reader.keys, reader.profiles, v.lock.value).value.0;
      var documents := Documents(reader.content(secret), reader.codec, v.commits);
      if documents.Ok? { DocumentsCount(reader.content(secret), reader.codec, v.commits); }
    }
  }

  lemma NothingFolded()
    ensures FoldContents(Contents([])) == []
  {
    assert Contents([]) == [];
  }

  function AsVault(reader: Reader, v: Served): Get.Vault
    requires Keys.Ideal(reader.p)
  {
    Get.Vault(v.id, v.vaultType, v.organization, v.team,
              match Opened(reader, v) case Some(content) => Some(reader.logins(content)) case None => None)
  }

  function AsVaults(reader: Reader, served: seq<Served>): (vaults: seq<Get.Vault>)
    requires Keys.Ideal(reader.p)
    ensures |vaults| == |served|
    ensures forall i :: 0 <= i < |served| ==> vaults[i] == AsVault(reader, served[i])
  {
    seq(|served|, i requires 0 <= i < |served| => AsVault(reader, served[i]))
  }

  /** A served vault whose locks and blobs open holds this login, and the selector matches it. */
  predicate Holds(reader: Reader, lower: string -> string, v: Served, selector: Get.LoginSelector, c: Get.Candidate)
    requires Keys.Ideal(reader.p)
  {
    && v.vaultType != Get.Other && Opened(reader, v).Some?
    && c.login in reader.logins(Opened(reader, v).value)
    && Get.LoginMatches(lower, c.login, selector) && c.tier == Get.Tier(v.vaultType)
  }

  /**
   * The candidates of a search over every vault are the matching logins of exactly the login vaults whose
   * locks unwrap at both tiers and whose every blob unseals and decodes.
   */
  lemma SearchedExactly(reader: Reader, lower: string -> string, served: seq<Served>,
                        selector: Get.LoginSelector, c: Get.Candidate)
    requires Keys.Ideal(reader.p)
    ensures c in Get.Gathered(lower, Get.LoginVaults(AsVaults(reader, served)), selector)
      <==> exists v :: v in served && Holds(reader, lower, v, selector, c)
  {
    hide Opened;
    var vaults := AsVaults(reader, served);
    Get.CandidatesAre(lower, vaults, selector, c);
    if v :| v in served && Holds(reader, lower, v, selector, c) {
      var i :| 0 <= i < |served| && served[i] == v;
      assert vaults[i] == AsVault(reader, v);
    }
    if u :| u in vaults && u.vaultType != Get.Other && Get.Offers(lower, u, selector, c) {
      var i :| 0 <= i < |vaults| && vaults[i] == u;
      assert Holds(reader, lower, served[i], selector, c);
    }
  }

  // ---- honest vaults

  /** Commits sealed under one key, one for each document. */
  predicate SealedAs(key: Key, codec: Codec, commits: seq<Stored>, documents: seq<Document>, nonces: seq<nat>) {
    && |commits| == |documents| == |nonces|
    && forall i :: 0 <= i < |commits| ==>
         Encoded(codec, documents[i]).Ok? && commits[i].blob == key.seal(nonces[i], Encoded(codec, documents[i]).value)
  }

  lemma {:induction false} SealedReadBack(key: Key, codec: Codec, commits: seq<Stored>, documents: seq<Document>,
                                          nonces: seq<nat>)
    requires Authentic(key) && Ideal(codec) && SealedAs(key, codec, commits, documents, nonces)
    ensures Documents(key, codec, commits) == Ok(documents)
  {
    hide Authentic, Ideal, Plain, Encoded;
    if commits == [] {
      assert documents == [];
    } else {
      var n := |commits| - 1;
      SealedReadBack(key, codec, commits[..n], documents[..n], nonces[..n]);
      CommitReadsBack(key, codec, nonces[n], documents[n]);
      assert documents == documents[..n] + [documents[n]];
    }
  }

  /** Every honestly locked and sealed vault opens to the fold of what was sealed, so every login of it is found. */
  lemma HonestVaultIsRead(reader: Reader, v: Served, id: string, seed: Blob, salt: Blob, profile: Keys.Profile,
                          storable: Blob, high: Blob, secret: Blob, protected: Blob, d: seq<Keys.Draw>,
                          documents: seq<Document>, nonces: seq<nat>)
    requires Keys.Ideal(reader.p) && |d| == 4 && d[0].Valid() && d[1].Valid() && d[2].Valid() && d[3].Valid()
    requires |storable| == |high| == |secret| == |protected| == Keys.SEED_LEN
    requires reader.keys == Keys.DeriveAuthenticator(reader.p, id, seed, salt)
    requires Keys.ProfileWith(reader.profiles, profile.id) == Some(profile)
    requires Keys.LockFor(profile.locks, id)
          == Some(Keys.HonestSeedLock(reader.p, reader.keys, profile.id, profile.generation, storable, high,
              d[0], d[1]))
    requires v.lock == Some(Keys.HonestVaultLock(reader.p, profile.id, profile.generation, storable, high,
                                                 secret, protected, d[2], d[3]))
    requires Authentic(reader.content(secret)) && Ideal(reader.codec)
    requires SealedAs(reader.content(secret), reader.codec, v.commits, documents, nonces)
    ensures Opened(reader, v) == Some(FoldContents(Contents(documents)))
  {
    Keys.HonestVaultOpens(reader.p, id, seed, salt, reader.profiles, profile, storable, high, secret, protected, d);
    SealedReadBack(reader.content(secret), reader.codec, v.commits, documents, nonces);
    hide Keys.OpenVault, Keys.HonestVaultLock, Keys.HonestSeedLock, Keys.DeriveAuthenticator, Keys.Ideal, Documents;
    assert Contents([]) == [];
  }
}
