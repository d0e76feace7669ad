/**
 * The key hierarchy from an authenticator's seed to a vault's two secrets: crates/heyl-domain/src/keys.rs
 * over crates/heyl-crypto/src/kdf.rs, asymmetric.rs and context.rs, with the primitives idealised.
 */
module Keys {
  import opened Wrappers
  import opened Bytes

  // ---- primitives

  datatype Primitives = Primitives(
    utf8: string -> Blob,
    sha512: Blob -> Blob,
    publicOf: Blob -> Blob,               // X25519 public half of a private key
    shared: (Blob, Blob) -> Blob,         // Diffie-Hellman of a public and a private key
    box: (Blob, Blob, Blob) -> Blob,      // shared key, nonce, plaintext
    unbox: (Blob, Blob, Blob) -> Option<Blob>)

  const NONCE_LEN: nat := 24
  const KEY_LEN: nat := 32
  const SEED_LEN: nat := 32
  const TAG_LEN: nat := 16

  /** Diffie-Hellman commutes; a box opens to what was boxed, and to nothing that was not. */
  ghost predicate Ideal(p: Primitives) {
    && (forall s :: |p.utf8(s)| >= |s|)
    && (forall s, t :: p.utf8(s) == p.utf8(t) ==> s == t)
    && (forall x :: |p.sha512(x)| == 64)
    && (forall k :: |p.publicOf(k)| == KEY_LEN)
    && (forall a, b {:trigger p.shared(p.publicOf(a), b)} :: p.shared(p.publicOf(a), b) == p.shared(p.publicOf(b), a))
    && (forall k, n, m :: |p.box(k, n, m)| == |m| + TAG_LEN && p.unbox(k, n, p.box(k, n, m)) == Some(m))
    && (forall k, n, c :: p.unbox(k, n, c).Some? ==> p.box(k, n, p.unbox(k, n, c).value) == c)
  }

  datatype Error = ContextTooShort | BadOutputLength | TooShort | Authentication | BadLength
                 | NoLockForAuthenticator | KeyGenerationMismatch | MissingProfile | MissingLock

  // ---- deriving keys

  /** What kind of key a context makes. */
  datatype Kind = Symmetric | Signing | Encryption {
    function Prefix(): string {
      match this
      case Symmetric => "salt-key-symmetric-"
      case Signing => "salt-key-signing-"
      case Encryption => "salt-key-encryption-"
    }
  }

  datatype Context = Context(kind: Kind, fixedInfo: string) {
    /** The string the KDF receives: the kind's prefix, then the purpose. */
    function Salt(): string { kind.Prefix() + fixedInfo }
  }

  const MIN_CONTEXT_LEN: nat := 8

  function SeedInput(seed: Blob, secondary: Option<Blob>): Blob {
    if secondary.Some? then seed + secondary.value else seed
  }

  /** What the second hash is taken over. */
  function Preimage(p: Primitives, seed: Blob, secondary: Option<Blob>, salt: string): Blob
  {
    p.utf8(salt) + p.sha512(SeedInput(seed, secondary))
  }

  /** `SHA512(salt || SHA512(seed || secondary))`, cut to the caller's buffer. */
  method DeriveSecretFromSeed(p: Primitives, seed: Blob, secondary: Option<Blob>, salt: string, out: array<Byte>)
    returns (r: Result<(), Error>)
    requires Ideal(p)
    modifies out
    ensures r.Ok? <==> |p.utf8(salt)| >= MIN_CONTEXT_LEN && (out.Length == 32 || out.Length == 64)
    ensures r.Ok? ==>
      var input := if secondary.Some? then seed + secondary.value else seed;
      out[..] == p.sha512(p.utf8(salt) + p.sha512(input))[..out.Length]
    ensures r == Err(ContextTooShort) <==> |p.utf8(salt)| < 8
    ensures r.Err? ==> out[..] == old(out[..])
  {
    if |p.utf8(salt)| < MIN_CONTEXT_LEN {
      return Err(ContextTooShort);
    }
    if out.Length != 32 && out.Length != 64 {
      return Err(BadOutputLength);
    }
    var first := seed;
    if secondary.Some? {
      first := first + secondary.value;
    }
    var second := p.utf8(salt);
    second := second + p.sha512(first);
    var derived := p.sha512(second);
    for i := 0 to out.Length
      invariant out[..i] == derived[..i]
    {
      out[i] := derived[i];
    }
    r := Ok(());
  }

  /** A 32-byte private key for a context. */
  function DeriveKey(p: Primitives, seed: Blob, secondary: Option<Blob>, ctx: Context): (k: Blob)
    requires Ideal(p)
    ensures |k| == KEY_LEN
  {
    p.sha512(Preimage(p, seed, secondary, ctx.Salt()))[..KEY_LEN]
  }

  /** No typed context is too short for the KDF, so deriving a key has no failure of its own. */
  lemma ContextsLongEnough(p: Primitives, ctx: Context)
    requires Ideal(p)
    ensures |p.utf8(ctx.Salt())| >= MIN_CONTEXT_LEN
  {
    assert |ctx.kind.Prefix()| >= 17;
  }

  lemma PrefixesApart(a: Context, b: Context)
    requires a.Salt() == b.Salt()
    ensures a == b
  {
    assert a.Salt()[9] == a.kind.Prefix()[9] && b.Salt()[9] == b.kind.Prefix()[9];
    assert a.Salt()[10] == a.kind.Prefix()[10] && b.Salt()[10] == b.kind.Prefix()[10];
    assert a.kind == b.kind;
    assert a.fixedInfo == a.Salt()[|a.kind.Prefix()|..] == b.Salt()[|b.kind.Prefix()|..] == b.fixedInfo;
  }

  lemma SeedInputInjective(s: Blob, x: Option<Blob>, t: Blob, y: Option<Blob>)
    requires |s| == |t| == SEED_LEN && (x.Some? ==> |x.value| == SEED_LEN) && (y.Some? ==> |y.value| == SEED_LEN)
    requires SeedInput(s, x) == SeedInput(t, y)
    ensures s == t && x == y
  {
    assert s == SeedInput(s, x)[..SEED_LEN] == SeedInput(t, y)[..SEED_LEN] == t;
    if x.Some? && y.Some? {
      assert x.value == SeedInput(s, x)[SEED_LEN..] == SeedInput(t, y)[SEED_LEN..] == y.value;
    }
  }

  /**
   * Two derivations share a KDF preimage only if they are the same derivation, kind, purpose, seed and
   * secondary seed all alike; or else the two seed inputs are a collision of the inner hash.
   */
  lemma PreimagesApart(p: Primitives, a: Context, s: Blob, x: Option<Blob>, b: Context, t: Blob, y: Option<Blob>)
    requires Ideal(p)
    requires |s| == |t| == SEED_LEN && (x.Some? ==> |x.value| == SEED_LEN) && (y.Some? ==> |y.value| == SEED_LEN)
    requires Preimage(p, s, x, a.Salt()) == Preimage(p, t, y, b.Salt())
    ensures a == b
    ensures (s == t && x == y)
         || (SeedInput(s, x) != SeedInput(t, y) && p.sha512(SeedInput(s, x)) == p.sha512(SeedInput(t, y)))
  {
    var u, v := Preimage(p, s, x, a.Salt()), Preimage(p, t, y, b.Salt());
    assert |u| == |p.utf8(a.Salt())| + 64 && |v| == |p.utf8(b.Salt())| + 64;
    assert p.utf8(a.Salt()) == u[..|u| - 64] == v[..|v| - 64] == p.utf8(b.Salt());
    PrefixesApart(a, b);
    assert p.sha512(SeedInput(s, x)) == u[|u| - 64..] == v[|v| - 64..] == p.sha512(SeedInput(t, y));
    if SeedInput(s, x) == SeedInput(t, y) { SeedInputInjective(s, x, t, y); }
  }

  // ---- sealing

  /** `nonce || ephemeral public || box`. */
  function Seal(p: Primitives, theirs: Blob, ephemeral: Blob, nonce: Blob, plaintext: Blob): Blob {
    nonce + p.publicOf(ephemeral) + p.box(p.shared(theirs, ephemeral), nonce, plaintext)
  }

  function Open(p: Primitives, mine: Blob, blob: Blob): Result<Blob, Error> {
    if |blob| < NONCE_LEN + KEY_LEN + TAG_LEN then Err(TooShort)
    else
      var nonce, rest := blob[..NONCE_LEN], blob[NONCE_LEN..];
      match p.unbox(p.shared(rest[..KEY_LEN], mine), nonce, rest[KEY_LEN..])
      case Some(plaintext) => Ok(plaintext)
      case None => Err(Authentication)
  }

  /** Less than a nonce, a key and a tag is no sealed blob; anything longer opens or does not authenticate. */
  lemma OpenRefuses(p: Primitives, mine: Blob, blob: Blob)
    ensures Open(p, mine, blob) == Err(TooShort) <==> |blob| < 72
    ensures |blob| >= 72 ==> Open(p, mine, blob).Ok? || Open(p, mine, blob) == Err(Authentication)
  {
  }

  /** What is sealed to a key's public half opens with the key. */
  lemma OpenSeal(p: Primitives, mine: Blob, ephemeral: Blob, nonce: Blob, plaintext: Blob)
    requires Ideal(p) && |nonce| == NONCE_LEN
    ensures Open(p, mine, Seal(p, p.publicOf(mine), ephemeral, nonce, plaintext)) == Ok(plaintext)
  {
    var theirs := p.publicOf(mine);
    var eph, box := p.publicOf(ephemeral), p.box(p.shared(theirs, ephemeral), nonce, plaintext);
    var blob := Seal(p, theirs, ephemeral, nonce, plaintext);
    assert blob == nonce + (eph + box);
    assert blob[..NONCE_LEN] == nonce && blob[NONCE_LEN..] == eph + box;
    assert (eph + box)[..KEY_LEN] == eph && (eph + box)[KEY_LEN..] == box;
  }

  /** Seal to a public key: the holder of its private half opens it. */
  method SealInto(p: Primitives, theirs: Blob, ephemeral: Blob, nonce: Blob, plaintext: Blob) returns (out: Blob)
    requires Ideal(p) && |nonce| == NONCE_LEN
    ensures forall mine :: p.publicOf(mine) == theirs ==> Open(p, mine, out) == Ok(plaintext)
    ensures |out| == 72 + |plaintext|
    ensures out[..24] == nonce && out[24..][..32] == p.publicOf(ephemeral)
    ensures p.unbox(p.shared(theirs, ephemeral), nonce, out[24..][32..]) == Some(plaintext)
  {
    var box := p.box(p.shared(theirs, ephemeral), nonce, plaintext);
    out := [];
    out := out + nonce;
    out := out + p.publicOf(ephemeral);
    out := out + box;
    assert out == Seal(p, theirs, ephemeral, nonce, plaintext);
    forall mine | p.publicOf(mine) == theirs ensures Open(p, mine, out) == Ok(plaintext) {
      OpenSeal(p, mine, ephemeral, nonce, plaintext);
    }
    assert out[NONCE_LEN..] == p.publicOf(ephemeral) + box;
  }

  /**
   * A second key that opens the blob has a box of its own that is the very same bytes: opening across
   * keys needs one ciphertext valid under two of them.
   */
  lemma OpenedByAnother(p: Primitives, mine: Blob, ephemeral: Blob, nonce: Blob, plaintext: Blob, other: Blob)
    requires Ideal(p) && |nonce| == NONCE_LEN
    requires Open(p, other, Seal(p, p.publicOf(mine), ephemeral, nonce, plaintext)).Ok?
    ensures var m := Open(p, other, Seal(p, p.publicOf(mine), ephemeral, nonce, plaintext)).value;
      p.box(p.shared(p.publicOf(other), ephemeral), nonce, m)
          == p.box(p.shared(p.publicOf(mine), ephemeral), nonce, plaintext)
  {
    var theirs := p.publicOf(mine);
    var eph, box := p.publicOf(ephemeral), p.box(p.shared(theirs, ephemeral), nonce, plaintext);
    var blob := Seal(p, theirs, ephemeral, nonce, plaintext);
    assert blob == nonce + (eph + box);
    assert blob[..NONCE_LEN] == nonce && blob[NONCE_LEN..] == eph + box;
    assert (eph + box)[..KEY_LEN] == eph && (eph + box)[KEY_LEN..] == box;
  }

  // ---- the chain

  datatype Tier = Storable | HighSecurity

  const AUTHENTICATOR_PROFILE_SEED: Context := Context(Encryption, "salt-authenticator-encryption-key-")
  const PROFILE_STORABLE_VAULT_KEY: Context := Context(Encryption, "salt-profile-storable-vault-key-encryption-key-")
  const PROFILE_HS_VAULT_KEY: Context := Context(Encryption, "salt-profile-high-security-vault-key-encryption-key-")

  function VaultKeyContext(tier: Tier): Context {
    if tier == Storable then PROFILE_STORABLE_VAULT_KEY else PROFILE_HS_VAULT_KEY
  }

  /** The keys of the chain, with the strings they are derived under written out. */
  lemma KeysSpelled(p: Primitives, seed: Blob, salt: Blob, id: string)
    requires Ideal(p)
    ensures VaultKeyKey(p, Storable, seed)
         == p.sha512(p.utf8("salt-key-encryption-" + "salt-profile-storable-vault-key-encryption-key-")
                     + p.sha512(seed))[..32]
    ensures VaultKeyKey(p, HighSecurity, seed)
         == p.sha512(p.utf8("salt-key-encryption-" + "salt-profile-high-security-vault-key-encryption-key-")
                     + p.sha512(seed))[..32]
    ensures DeriveAuthenticator(p, id, seed, salt).profileSeedKey
         == p.sha512(p.utf8("salt-key-encryption-" + "salt-authenticator-encryption-key-")
                     + p.sha512(seed + salt))[..32]
    ensures DeriveAuthenticator(p, id, seed, salt).id == id
  {
  }

  datatype ProfileLock = ProfileLock(authenticatorId: string, profileId: string, generation: string,
      storable: Blob, highSecurity: Blob) {
    function Cipher(tier: Tier): Blob { if tier == Storable then storable else highSecurity }
  }

  datatype VaultLock = VaultLock(profileId: string, generation: string, storable: Blob, highSecurity: Blob) {
    function Cipher(tier: Tier): Blob { if tier == Storable then storable else highSecurity }
  }

  datatype AuthenticatorKeys = AuthenticatorKeys(id: string, profileSeedKey: Blob)

  function DeriveAuthenticator(p: Primitives, id: string, seed: Blob, salt: Blob): AuthenticatorKeys
    requires Ideal(p)
  {
    AuthenticatorKeys(id, DeriveKey(p, seed, Some(salt), AUTHENTICATOR_PROFILE_SEED))
  }

  function CheckLock(keys: AuthenticatorKeys, lock: ProfileLock, generation: string): Result<(), Error> {
    if lock.authenticatorId != keys.id then Err(NoLockForAuthenticator)
    else if lock.generation != generation then Err(KeyGenerationMismatch)
    else Ok(())
  }

  /** Exactly 32 bytes, or nothing. */
  function Fixed(r: Result<Blob, Error>): Result<Blob, Error> {
    if r.Ok? && |r.value| != SEED_LEN then Err(BadLength) else r
  }

  function UnlockProfileSeed(p: Primitives, keys: AuthenticatorKeys, tier: Tier, lock: ProfileLock,
                             generation: string): Result<Blob, Error> {
    var _ :- CheckLock(keys, lock, generation);
    Fixed(Open(p, keys.profileSeedKey, lock.Cipher(tier)))
  }

  function VaultKeyKey(p: Primitives, tier: Tier, seed: Blob): Blob
    requires Ideal(p)
  {
    DeriveKey(p, seed, None, VaultKeyContext(tier))
  }

  function UnlockVault(p: Primitives, tier: Tier, seed: Blob, lock: VaultLock, generation: string): Result<Blob, Error>
    requires Ideal(p)
  {
    if lock.generation != generation then Err(KeyGenerationMismatch)
    else Fixed(Open(p, VaultKeyKey(p, tier, seed), lock.Cipher(tier)))
  }

  datatype Profile = Profile(id: string, generation: string, locks: seq<ProfileLock>)

  function ProfileWith(profiles: seq<Profile>, id: string): Option<Profile> {
    if profiles == [] then None else if profiles[0].id == id then Some(profiles[0]) else ProfileWith(profiles[1..], id)
  }

  function LockFor(locks: seq<ProfileLock>, id: string): Option<ProfileLock> {
    if locks == [] then None else if locks[0].authenticatorId == id then Some(locks[0]) else LockFor(locks[1..], id)
  }

  /** Both tiers of `open_vault`: the vault's secret and its protected secret. */
  function OpenVault(p: Primitives, keys: AuthenticatorKeys, profiles: seq<Profile>,
                     lock: VaultLock): Result<(Blob, Blob), Error>
    requires Ideal(p)
  {
    var profile :- ProfileWith(profiles, lock.profileId).OkOr(MissingProfile);
    var seedLock :- LockFor(profile.locks, keys.id).OkOr(MissingLock);
    var storable :- UnlockProfileSeed(p, keys, Storable, seedLock, profile.generation);
    var high :- UnlockProfileSeed(p, keys, HighSecurity, seedLock, profile.generation);
    var secret :- UnlockVault(p, Storable, storable, lock, profile.generation);
    var protected :- UnlockVault(p, HighSecurity, high, lock, profile.generation);
    Ok((secret, protected))
  }

  /** What a lock gives has 32 bytes; one of another authenticator's is refused as that before anything else. */
  lemma UnlockedLength(p: Primitives, keys: AuthenticatorKeys, tier: Tier, seed: Blob, lock: ProfileLock,
                       vaultLock: VaultLock, generation: string)
    requires Ideal(p)
    ensures var r := UnlockProfileSeed(p, keys, tier, lock, generation);
      && (r.Ok? ==> |r.value| == 32)
      && (r == Err(NoLockForAuthenticator) <==> lock.authenticatorId != keys.id)
    ensures var r := UnlockVault(p, tier, seed, vaultLock, generation); r.Ok? ==> |r.value| == 32
  {
  }

  /** A sealed text of any other length opens, and is refused for its length. */
  lemma WrongLength(p: Primitives, tier: Tier, seed: Blob, lock: VaultLock, ephemeral: Blob, nonce: Blob, text: Blob)
    requires Ideal(p) && |nonce| == NONCE_LEN
    requires lock.Cipher(tier) == Seal(p, p.publicOf(VaultKeyKey(p, tier, seed)), ephemeral, nonce, text)
    ensures UnlockVault(p, tier, seed, lock, lock.generation) == if |text| == 32 then Ok(text) else Err(BadLength)
  {
    OpenSeal(p, VaultKeyKey(p, tier, seed), ephemeral, nonce, text);
    hide Open, Seal, VaultKeyKey, Ideal;
  }

  /** The profile is the first of the lock's number, and the seed lock the first of our authenticator's. */
  lemma {:induction false} FirstProfile(profiles: seq<Profile>, id: string, profile: Profile)
    ensures ProfileWith(profiles, id) == Some(profile) <==>
      exists i :: 0 <= i < |profiles| && profiles[i] == profile && profile.id == id
                  && forall j :: 0 <= j < i ==> profiles[j].id != id
  {
    if profiles != [] && profiles[0].id != id {
      FirstProfile(profiles[1..], id, profile);
      if i :| 0 <= i < |profiles| && profiles[i] == profile && profile.id == id
              && forall j :: 0 <= j < i ==> profiles[j].id != id {
        assert profiles[1..][i - 1] == profile;
        assert forall j :: 0 <= j < i - 1 ==> profiles[1..][j] == profiles[j + 1];
      }
      if ProfileWith(profiles, id) == Some(profile) {
        var i :| 0 <= i < |profiles[1..]| && profiles[1..][i] == profile
                 && forall j :: 0 <= j < i ==> profiles[1..][j].id != id;
        assert profiles[i + 1] == profile;
        assert forall j :: 1 <= j < i + 1 ==> profiles[j] == profiles[1..][j - 1];
      }
    }
  }

  lemma {:induction false} FirstLock(locks: seq<ProfileLock>, id: string, lock: ProfileLock)
    ensures LockFor(locks, id) == Some(lock) <==>
      exists i :: 0 <= i < |locks| && locks[i] == lock && lock.authenticatorId == id
                  && forall j :: 0 <= j < i ==> locks[j].authenticatorId != id
  {
    if locks != [] && locks[0].authenticatorId != id {
      FirstLock(locks[1..], id, lock);
      if i :| 0 <= i < |locks| && locks[i] == lock && lock.authenticatorId == id
              && forall j :: 0 <= j < i ==> locks[j].authenticatorId != id {
        assert locks[1..][i - 1] == lock;
        assert forall j :: 0 <= j < i - 1 ==> locks[1..][j] == locks[j + 1];
      }
      if LockFor(locks, id) == Some(lock) {
        var i :| 0 <= i < |locks[1..]| && locks[1..][i] == lock
                 && forall j :: 0 <= j < i ==> locks[1..][j].authenticatorId != id;
        assert locks[i + 1] == lock;
        assert forall j :: 1 <= j < i + 1 ==> locks[j] == locks[1..][j - 1];
      }
    }
  }

  /** What a vault fails with when there is nothing to open it by. */
  lemma NothingToOpenBy(p: Primitives, keys: AuthenticatorKeys, profiles: seq<Profile>, lock: VaultLock)
    requires Ideal(p)
    ensures OpenVault(p, keys, profiles, lock) == Err(MissingProfile) <==>
      forall i :: 0 <= i < |profiles| ==> profiles[i].id != lock.profileId
    ensures OpenVault(p, keys, profiles, lock) == Err(MissingLock) <==>
      exists profile :: ProfileWith(profiles, lock.profileId) == Some(profile)
                        && forall i :: 0 <= i < |profile.locks| ==> profile.locks[i].authenticatorId != keys.id
  {
    hide ProfileWith, LockFor, OpenVault;
    NoProfile(profiles, lock.profileId);
    Unopened(p, keys, profiles, lock);
    var found := ProfileWith(profiles, lock.profileId);
    if found.Some? { NoLock(found.value.locks, keys.id); }
  }

  lemma Unopened(p: Primitives, keys: AuthenticatorKeys, profiles: seq<Profile>, lock: VaultLock)
    requires Ideal(p)
    ensures var profile, r := ProfileWith(profiles, lock.profileId), OpenVault(p, keys, profiles, lock);
      && (r == Err(MissingProfile) <==> profile == None)
      && (r == Err(MissingLock) <==> profile.Some? && LockFor(profile.value.locks, keys.id) == None)
  {
    hide ProfileWith, LockFor, VaultKeyKey, Ideal, UnlockProfileSeed, UnlockVault;
    var found := ProfileWith(profiles, lock.profileId);
    if found.Some? && LockFor(found.value.locks, keys.id).Some? {
      var profile, seedLock := found.value, LockFor(found.value.locks, keys.id).value;
      LockFails(p, keys, Storable, seedLock, profile.generation);
      LockFails(p, keys, HighSecurity, seedLock, profile.generation);
      forall tier, seed { VaultFails(p, tier, seed, lock, profile.generation); }
    }
  }

  lemma LockFails(p: Primitives, keys: AuthenticatorKeys, tier: Tier, lock: ProfileLock, generation: string)
    ensures var r := UnlockProfileSeed(p, keys, tier, lock, generation);
      r != Err(MissingProfile) && r != Err(MissingLock)
  {
  }

  lemma VaultFails(p: Primitives, tier: Tier, seed: Blob, lock: VaultLock, generation: string)
    requires Ideal(p)
    ensures var r := UnlockVault(p, tier, seed, lock, generation);
      r != Err(MissingProfile) && r != Err(MissingLock)
  {
  }

  lemma {:induction false} NoProfile(profiles: seq<Profile>, id: string)
    ensures ProfileWith(profiles, id) == None <==> forall i :: 0 <= i < |profiles| ==> profiles[i].id != id
  {
    if profiles != [] {
      NoProfile(profiles[1..], id);
      assert forall i :: 1 <= i < |profiles| ==> profiles[i] == profiles[1..][i - 1];
    }
  }

  lemma {:induction false} NoLock(locks: seq<ProfileLock>, id: string)
    ensures LockFor(locks, id) == None <==> forall i :: 0 <= i < |locks| ==> locks[i].authenticatorId != id
  {
    if locks != [] {
      NoLock(locks[1..], id);
      assert forall i :: 1 <= i < |locks| ==> locks[i] == locks[1..][i - 1];
    }
  }

  // ---- honest accounts

  /** The randomness one seal draws. */
  datatype Draw = Draw(ephemeral: Blob, nonce: Blob) {
    predicate Valid() { |nonce| == NONCE_LEN }
  }

  /** A profile's seeds as an authenticator receives them. */
  function HonestSeedLock(p: Primitives, keys: AuthenticatorKeys, profile: string, generation: string,
                          storable: Blob, high: Blob, d: Draw, e: Draw): ProfileLock {
    var theirs := p.publicOf(keys.profileSeedKey);
    ProfileLock(keys.id, profile, generation,
                Seal(p, theirs, d.ephemeral, d.nonce, storable), Seal(p, theirs, e.ephemeral, e.nonce, high))
  }

  /** A vault's secrets as a profile receives them. */
  function HonestVaultLock(p: Primitives, profile: string, generation: string, storable: Blob, high: Blob,
                           secret: Blob, protected: Blob, d: Draw, e: Draw): VaultLock
    requires Ideal(p)
  {
    VaultLock(profile, generation,
              Seal(p, p.publicOf(VaultKeyKey(p, Storable, storable)), d.ephemeral, d.nonce, secret),
              Seal(p, p.publicOf(VaultKeyKey(p, HighSecurity, high)), e.ephemeral, e.nonce, protected))
  }

  /** Every honestly sealed vault opens, and gives exactly the two secrets its lock was built from. */
  lemma HonestVaultOpens(p: Primitives, id: string, seed: Blob, salt: Blob, profiles: seq<Profile>, profile: Profile,
                         storable: Blob, high: Blob, secret: Blob, protected: Blob, d: seq<Draw>)
    requires Ideal(p) && |d| == 4 && d[0].Valid() && d[1].Valid() && d[2].Valid() && d[3].Valid()
    requires |storable| == |high| == |secret| == |protected| == SEED_LEN
    requires ProfileWith(profiles, profile.id) == Some(profile)
    requires LockFor(profile.locks, id)
          == Some(HonestSeedLock(p, DeriveAuthenticator(p, id, seed, salt), profile.id, profile.generation,
              storable, high, d[0], d[1]))
    ensures OpenVault(p, DeriveAuthenticator(p, id, seed, salt), profiles,
                      HonestVaultLock(p, profile.id, profile.generation, storable, high, secret, protected, d[2], d[3]))
         == Ok((secret, protected))
  {
    var keys := DeriveAuthenticator(p, id, seed, salt);
    OpenSeal(p, keys.profileSeedKey, d[0].ephemeral, d[0].nonce, storable);
    OpenSeal(p, keys.profileSeedKey, d[1].ephemeral, d[1].nonce, high);
    OpenSeal(p, VaultKeyKey(p, Storable, storable), d[2].ephemeral, d[2].nonce, secret);
    OpenSeal(p, VaultKeyKey(p, HighSecurity, high), d[3].ephemeral, d[3].nonce, protected);
  }

  /** A lock of another generation is refused as that, whatever its ciphertexts are: before any is opened. */
  lemma StaleSeedLockRefused(p: Primitives, keys: AuthenticatorKeys, tier: Tier, lock: ProfileLock, generation: string)
    requires lock.authenticatorId == keys.id
    ensures UnlockProfileSeed(p, keys, tier, lock, generation) == Err(KeyGenerationMismatch) <==>
      lock.generation != generation
  {
  }

  lemma StaleVaultLockRefused(p: Primitives, tier: Tier, seed: Blob, lock: VaultLock, generation: string)
    requires Ideal(p)
    ensures UnlockVault(p, tier, seed, lock, generation) == Err(KeyGenerationMismatch) <==>
      lock.generation != generation
  {
  }

  lemma OwnLock(locks: seq<ProfileLock>, id: string)
    requires LockFor(locks, id).Some?
    ensures LockFor(locks, id).value.authenticatorId == id
  {
  }

  /**
   * Through the whole chain: a vault is refused as stale exactly when our profile lock is of another generation
   * than the profile, whatever the ciphertexts hold, or both seeds open and the vault lock is.
   */
  lemma StaleVaultRefused(p: Primitives, keys: AuthenticatorKeys, profiles: seq<Profile>, lock: VaultLock)
    requires Ideal(p)
    requires ProfileWith(profiles, lock.profileId).Some?
    requires LockFor(ProfileWith(profiles, lock.profileId).value.locks, keys.id).Some?
    ensures var profile := ProfileWith(profiles, lock.profileId).value;
      var seedLock := LockFor(profile.locks, keys.id).value;
      OpenVault(p, keys, profiles, lock) == Err(KeyGenerationMismatch) <==>
        || seedLock.generation != profile.generation
        || (&& UnlockProfileSeed(p, keys, Storable, seedLock, profile.generation).Ok?
            && UnlockProfileSeed(p, keys, HighSecurity, seedLock, profile.generation).Ok?
            && lock.generation != profile.generation)
  {
    OwnLock(ProfileWith(profiles, lock.profileId).value.locks, keys.id);
  }

  /** The two tiers of one seed derive their vault keys from different preimages. */
  lemma TiersApart(p: Primitives, s: Blob, t: Blob)
    requires Ideal(p) && |s| == |t| == SEED_LEN
    ensures Preimage(p, s, None, VaultKeyContext(Storable).Salt())
        != Preimage(p, t, None, VaultKeyContext(HighSecurity).Salt())
  {
    var a, b := VaultKeyContext(Storable), VaultKeyContext(HighSecurity);
    assert |a.fixedInfo| < |b.fixedInfo|;
    if Preimage(p, s, None, a.Salt()) == Preimage(p, t, None, b.Salt()) {
      PreimagesApart(p, a, s, None, b, t, None);
    }
  }

  function OtherTier(tier: Tier): Tier { if tier == Storable then HighSecurity else Storable }

  /**
   * Either tier's key opening the other tier's ciphertext would take one ciphertext valid under two
   * different keys, or one 32-byte key cut from two different preimages.
   */
  lemma TiersDoNotCross(p: Primitives, tier: Tier, seed: Blob, other: Blob, secret: Blob, d: Draw)
    requires Ideal(p) && |seed| == |other| == SEED_LEN && d.Valid()
    requires var mine := VaultKeyKey(p, tier, seed);
      Open(p, VaultKeyKey(p, OtherTier(tier), other), Seal(p, p.publicOf(mine), d.ephemeral, d.nonce, secret)).Ok?
    ensures var mine, theirs := VaultKeyKey(p, tier, seed), VaultKeyKey(p, OtherTier(tier), other);
      || (&& mine == theirs
          && Preimage(p, seed, None, VaultKeyContext(tier).Salt())
             != Preimage(p, other, None, VaultKeyContext(OtherTier(tier)).Salt()))
      || (&& mine != theirs
          && exists m :: p.box(p.shared(p.publicOf(theirs), d.ephemeral), d.nonce, m)
                      == p.box(p.shared(p.publicOf(mine), d.ephemeral), d.nonce, secret))
  {
    if tier == Storable { TiersApart(p, seed, other); } else { TiersApart(p, other, seed); }
    OpenedByAnother(p, VaultKeyKey(p, tier, seed), d.ephemeral, d.nonce, secret,
                    VaultKeyKey(p, OtherTier(tier), other));
  }
}
