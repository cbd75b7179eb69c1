/** The encrypted secret file: what it holds, and the store that keeps memory and file in
    agreement. Cryptography, JSON and base64 are function values with round-trip laws. */
module Secrets {
  import opened Prelude

  datatype Ref = Ref(text: string)
  datatype Secret = Secret(username: string, password: string, options: map<string, string>)
  datatype Key = Key(bytes: Bytes)
  datatype Blob = Blob(text: string)
  datatype Params = Params(mKib: nat, t: nat, p: nat)

  const DEFAULT_PARAMS := Params(19_456, 2, 1)
  const KDF_NAME := "argon2id"
  const LEGACY_VERSION: nat := 1
  const VERSION: nat := 2
  const MIN_SALT := 8
  const SALT_LEN := 16

  datatype Crypto = Crypto(
    derive: (string, Bytes, Params) -> Option<Key>,
    deriveLegacy: string -> Key,
    fingerprint: Key -> string,
    seal: (Key, Bytes, Bytes) -> Blob,
    unseal: (Key, Blob) -> Option<Bytes>,
    toJson: Secret -> Bytes,
    fromJson: Bytes -> Option<Secret>,
    encode64: Bytes -> string,
    decode64: string -> Option<Bytes>,
    canary: Bytes
  )

  /** The round trips the store relies on; nothing is said about wrong keys. */
  ghost predicate Lawful(c: Crypto)
  {
    && (forall k, nonce, plain :: c.unseal(k, c.seal(k, nonce, plain)) == Some(plain))
    && (forall secret :: c.fromJson(c.toJson(secret)) == Some(secret))
    && (forall bytes :: c.decode64(c.encode64(bytes)) == Some(bytes))
  }

  /** The key derivation accepts its default parameters (19 MiB, two passes, one lane) and
      sixteen bytes of salt. */
  ghost predicate KdfWorks(c: Crypto, master: string)
  {
    forall salt: Bytes :: |salt| == 16 ==> c.derive(master, salt, Params(19_456, 2, 1)).Some?
  }

  datatype SecretFile = SecretFile(
    version: nat,
    keyId: Option<string>,
    kdf: Option<string>,
    salt: Option<string>,
    params: Option<Params>,
    verifier: Option<Blob>,
    entries: map<Ref, Blob>
  )

  datatype StoreError = Io | Random | Kdf | WrongKey | Corrupt | UnsupportedVersion

  // ------------------------------------------------------ what a file holds

  ghost predicate Opens(c: Crypto, key: Key, blob: Blob, secret: Secret)
  {
    var plain := c.unseal(key, blob);
    plain.Some? && c.fromJson(plain.value) == Some(secret)
  }

  ghost predicate Decodes(c: Crypto, key: Key, entries: map<Ref, Blob>, secrets: map<Ref, Secret>)
  {
    && entries.Keys == secrets.Keys
    && forall r :: r in entries ==> Opens(c, key, entries[r], secrets[r])
  }

  function KeyOf(c: Crypto, file: SecretFile, master: string): Option<Key>
  {
    if file.salt.None? then None else
    var salt := c.decode64(file.salt.value);
    if salt.None? || |salt.value| < MIN_SALT then None else
    c.derive(master, salt.value, if file.params.Some? then file.params.value else DEFAULT_PARAMS)
  }

  /** The file is a current one, locked with `master`, and its decoded content is `secrets`. */
  ghost predicate Holds(c: Crypto, file: SecretFile, master: string, secrets: map<Ref, Secret>)
  {
    && file.version == VERSION
    && (file.kdf.Some? ==> file.kdf.value == KDF_NAME)
    && var key := KeyOf(c, file, master);
    && key.Some?
    && file.verifier.Some?
    && c.unseal(key.value, file.verifier.value) == Some(c.canary)
    && Decodes(c, key.value, file.entries, secrets)
  }

  /** A file of the first version: an unsalted key and its fingerprint in the clear. */
  ghost predicate HoldsLegacy(c: Crypto, file: SecretFile, master: string, secrets: map<Ref, Secret>)
  {
    && file.version == LEGACY_VERSION
    && file.keyId == Some(c.fingerprint(c.deriveLegacy(master)))
    && Decodes(c, c.deriveLegacy(master), file.entries, secrets)
  }

  /** Field by field: a current file has version 2 and names argon2id or nothing; its salt has
      eight bytes at least; the key that the master derives opens the canary, and each
      entry opens to the secret of its reference. */
  lemma HoldsIff(c: Crypto, file: SecretFile, master: string, secrets: map<Ref, Secret>)
    ensures Holds(c, file, master, secrets) <==>
      && file.version == 2 && (file.kdf.None? || file.kdf == Some("argon2id"))
      && file.salt.Some? && file.verifier.Some?
      && var salt := c.decode64(file.salt.value);
      && salt.Some? && |salt.value| >= 8
      && var key := c.derive(master, salt.value, if file.params.Some? then file.params.value else Params(19_456, 2, 1));
      && key.Some? && c.unseal(key.value, file.verifier.value) == Some(c.canary)
      && EachOpens(c, key.value, file.entries, secrets)
  {
  }

  ghost predicate EachOpens(c: Crypto, key: Key, entries: map<Ref, Blob>, secrets: map<Ref, Secret>)
  {
    && (forall r :: r in entries <==> r in secrets)
    && forall r :: r in entries ==>
      c.unseal(key, entries[r]).Some? && c.fromJson(c.unseal(key, entries[r]).value) == Some(secrets[r])
  }

  /** A first-version file carries the fingerprint of the unsalted key, and each entry opens
      under that key. */
  lemma HoldsLegacyIff(c: Crypto, file: SecretFile, master: string, secrets: map<Ref, Secret>)
    ensures HoldsLegacy(c, file, master, secrets) <==>
      && file.version == 1 && file.keyId == Some(c.fingerprint(c.deriveLegacy(master)))
      && EachOpens(c, c.deriveLegacy(master), file.entries, secrets)
  {
  }

  lemma DecodesOnce(c: Crypto, key: Key, entries: map<Ref, Blob>, a: map<Ref, Secret>, b: map<Ref, Secret>)
    requires Decodes(c, key, entries, a) && Decodes(c, key, entries, b)
    ensures a == b
  {
    forall r | r in entries
      ensures a[r] == b[r]
    {
      assert Opens(c, key, entries[r], a[r]) && Opens(c, key, entries[r], b[r]);
    }
  }

  /** A file holds one map of secrets at most. */
  lemma HoldsOnce(c: Crypto, file: SecretFile, master: string, a: map<Ref, Secret>, b: map<Ref, Secret>)
    requires Holds(c, file, master, a) && Holds(c, file, master, b)
    ensures a == b
  {
    DecodesOnce(c, KeyOf(c, file, master).value, file.entries, a, b);
  }

  // --------------------------------------------------------- reading entries

  /** An entry nobody can read, with the error it causes. */
  ghost predicate Unreadable(c: Crypto, key: Key, blob: Blob, error: StoreError)
  {
    var plain := c.unseal(key, blob);
    || (plain.None? && error == WrongKey)
    || (plain.Some? && c.fromJson(plain.value).None? && error == Corrupt)
  }

  method ReadEntries(c: Crypto, key: Key, entries: map<Ref, Blob>) returns (r: Result<map<Ref, Secret>, StoreError>)
    ensures r.Ok? ==> Decodes(c, key, entries, r.value)
    ensures r.Err? ==> exists ref :: ref in entries && Unreadable(c, key, entries[ref], r.error)
    ensures r.Err? ==> forall secrets :: !Decodes(c, key, entries, secrets)
  {
    var secrets: map<Ref, Secret> := map[];
    var left := entries.Keys;
    while left != {}
      invariant left <= entries.Keys
      invariant secrets.Keys == entries.Keys - left
      invariant forall ref :: ref in secrets ==> Opens(c, key, entries[ref], secrets[ref])
      decreases |left|
    {
      var ref :| ref in left;
      var plain := c.unseal(key, entries[ref]);
      if plain.None? {
        assert forall s :: !Opens(c, key, entries[ref], s);
        return Err(WrongKey);
      }
      var secret := c.fromJson(plain.value);
      if secret.None? {
        assert forall s :: !Opens(c, key, entries[ref], s);
        return Err(Corrupt);
      }
      secrets := secrets[ref := secret.value];
      left := left - {ref};
    }
    return Ok(secrets);
  }

  // -------------------------------------------------------------- the store

  /** What the operating system does during one call. */
  datatype Io = Io(random: bool, writes: bool)

  datatype Inner = Inner(key: Key, salt: Bytes, params: Params, keyId: string, secrets: map<Ref, Secret>)

  ghost predicate Unlocked(c: Crypto, inner: Inner, master: string)
  {
    && |inner.salt| >= MIN_SALT
    && c.derive(master, inner.salt, inner.params) == Some(inner.key)
  }

  method FreshBytes(n: nat, random: bool) returns (bytes: Option<Bytes>)
    ensures bytes.Some? <==> random
    ensures bytes.Some? ==> |bytes.value| == n
  {
    if !random {
      return None;
    }
    var chosen: Bytes := *;
    bytes := Some(if |chosen| == n then chosen else seq(n, _ => 0));
  }

  lemma SealOpens(c: Crypto, key: Key, nonce: Bytes, secret: Secret)
    requires Lawful(c)
    ensures Opens(c, key, c.seal(key, nonce, c.toJson(secret)), secret)
  {
  }

  /** Everything is sealed again under the current key, with fresh nonces. */
  method BuildFile(c: Crypto, inner: Inner, random: bool, ghost master: string)
    returns (r: Result<SecretFile, StoreError>)
    requires Lawful(c) && Unlocked(c, inner, master)
    ensures r.Ok? ==> Holds(c, r.value, master, inner.secrets) && r.value.keyId.None?
    ensures r.Ok? <==> random
    ensures r.Err? ==> r.error == Random
  {
    var entries: map<Ref, Blob> := map[];
    var left := inner.secrets.Keys;
    while left != {}
      invariant left <= inner.secrets.Keys
      invariant entries.Keys == inner.secrets.Keys - left
      invariant forall ref :: ref in entries ==> Opens(c, inner.key, entries[ref], inner.secrets[ref])
      decreases |left|
    {
      hide Lawful, Opens;
      var ref :| ref in left;
      var nonce := FreshBytes(12, random);
      if nonce.None? {
        return Err(Random);
      }
      SealOpens(c, inner.key, nonce.value, inner.secrets[ref]);
      entries := entries[ref := c.seal(inner.key, nonce.value, c.toJson(inner.secrets[ref]))];
      left := left - {ref};
    }
    var nonce := FreshBytes(12, random);
    if nonce.None? {
      return Err(Random);
    }
    var verifier := c.seal(inner.key, nonce.value, c.canary);
    return Ok(SecretFile(VERSION, None, Some(KDF_NAME), Some(c.encode64(inner.salt)), Some(inner.params),
                         Some(verifier), entries));
  }

  /** The file on disk: replaced whole, or not at all. */
  class Disk {
    var file: Option<SecretFile>

    constructor (file: Option<SecretFile>)
      ensures this.file == file
    {
      this.file := file;
    }

    method Write(c: Crypto, inner: Inner, io: Io, ghost master: string) returns (r: Result<(), StoreError>)
      requires Lawful(c) && Unlocked(c, inner, master)
      modifies this
      ensures r.Ok? <==> io.random && io.writes
      ensures r.Ok? ==> file.Some? && Holds(c, file.value, master, inner.secrets) && file.value.keyId.None?
      ensures r.Err? ==> file == old(file)
    {
      var built := BuildFile(c, inner, io.random, master);
      if built.Err? {
        return Err(built.error);
      }
      if !io.writes {
        return Err(StoreError.Io);
      }
      file := Some(built.value);
      return Ok(());
    }
  }

  class EncryptedFileSecretStore {
    const c: Crypto
    const disk: Disk
    var inner: Inner
    var fingerprint: string
    ghost var master: string

    /** Memory equals the decoded file, once there is one; before that it is empty. */
    ghost predicate Valid()
      reads this, disk
    {
      && Lawful(c)
      && Unlocked(c, inner, master)
      && fingerprint == inner.keyId == c.fingerprint(inner.key)
      && match disk.file
         case None => inner.secrets == map[]
         case Some(file) => Holds(c, file, master, inner.secrets)
    }

    constructor (c: Crypto, disk: Disk, inner: Inner, ghost master: string)
      ensures this.c == c && this.disk == disk && this.inner == inner && this.master == master
      ensures fingerprint == inner.keyId
    {
      this.c, this.disk, this.inner, this.master := c, disk, inner, master;
      fingerprint := inner.keyId;
    }

    /** The answer is what decrypting the file's entry of the reference would give: nothing
        exactly if there is no file or it has no such entry. */
    method Resolve(reference: Ref) returns (secret: Option<Secret>)
      requires Valid()
      ensures secret.Some? <==> disk.file.Some? && reference in disk.file.value.entries
      ensures secret.Some? ==>
        && KeyOf(c, disk.file.value, master).Some?
        && Opens(c, KeyOf(c, disk.file.value, master).value, disk.file.value.entries[reference], secret.value)
    {
      hide KeyOf, Opens, Lawful, Unlocked;
      secret := if reference in inner.secrets then Some(inner.secrets[reference]) else None;
    }

    /** Insert, write, and take the insertion back when the write fails. */
    method Store(reference: Ref, secret: Secret, io: Io) returns (r: Result<(), StoreError>)
      requires Valid()
      modifies this, disk
      ensures Valid() && master == old(master)
      ensures r.Ok? <==> io.random && io.writes
      ensures r.Ok? ==> inner.secrets == old(inner.secrets)[reference := secret] && disk.file.Some?
      ensures r.Err? ==> inner == old(inner) && disk.file == old(disk.file)
    {
      hide Holds, Lawful;
      var previous := if reference in inner.secrets then Some(inner.secrets[reference]) else None;
      inner := inner.(secrets := inner.secrets[reference := secret]);
      r := disk.Write(c, inner, io, master);
      if r.Err? {
        if previous.Some? {
          inner := inner.(secrets := inner.secrets[reference := previous.value]);
        } else {
          inner := inner.(secrets := inner.secrets - {reference});
        }
        assert inner.secrets == old(inner.secrets);
      }
    }

    /** Removing an unknown reference writes nothing and succeeds. */
    method Remove(reference: Ref, io: Io) returns (r: Result<(), StoreError>)
      requires Valid()
      modifies this, disk
      ensures Valid() && master == old(master)
      ensures r.Ok? <==> reference !in old(inner.secrets) || (io.random && io.writes)
      ensures r.Ok? ==> inner.secrets == old(inner.secrets) - {reference}
      ensures r.Err? ==> inner == old(inner) && disk.file == old(disk.file)
      ensures reference !in old(inner.secrets) ==> disk.file == old(disk.file)
    {
      if reference !in inner.secrets {
        assert inner.secrets == inner.secrets - {reference};
        return Ok(());
      }
      var previous := inner.secrets[reference];
      inner := inner.(secrets := inner.secrets - {reference});
      r := disk.Write(c, inner, io, master);
      if r.Err? {
        inner := inner.(secrets := inner.secrets[reference := previous]);
        assert inner.secrets == old(inner.secrets);
      }
    }

    /** The file is written under the new key first; memory follows only then. */
    method RotateKey(newMaster: string, io: Io) returns (r: Result<string, StoreError>)
      requires Valid()
      modifies this, disk
      ensures Valid() && inner.secrets == old(inner.secrets)
      ensures r.Ok? ==> master == newMaster && disk.file.Some? && r.value == fingerprint
      ensures r.Err? ==> inner == old(inner) && master == old(master) && disk.file == old(disk.file)
      ensures io.random && io.writes && KdfWorks(c, newMaster) ==> r.Ok?
      ensures !(io.random && io.writes) ==> r.Err?
    {
      var salt := FreshBytes(SALT_LEN, io.random);
      if salt.None? {
        return Err(Random);
      }
      var key := c.derive(newMaster, salt.value, DEFAULT_PARAMS);
      if key.None? {
        return Err(Kdf);
      }
      var pending := Inner(key.value, salt.value, DEFAULT_PARAMS, c.fingerprint(key.value), inner.secrets);
      var written := disk.Write(c, pending, io, newMaster);
      if written.Err? {
        return Err(written.error);
      }
      inner, master := pending, newMaster;
      fingerprint := pending.keyId;
      return Ok(pending.keyId);
    }
  }

  // ----------------------------------------------------------------- opening

  method OpenCurrent(c: Crypto, disk: Disk, file: SecretFile, masterKey: string)
    returns (r: Result<EncryptedFileSecretStore, StoreError>)
    requires Lawful(c) && disk.file == Some(file) && file.version == VERSION
    ensures r.Ok? ==>
      fresh(r.value) && r.value.disk == disk && r.value.c == c && r.value.Valid() && r.value.master == masterKey
    ensures r.Err? ==> forall secrets :: !Holds(c, file, masterKey, secrets)
  {
    if file.salt.None? {
      return Err(Corrupt);
    }
    var salt := c.decode64(file.salt.value);
    if salt.None? || |salt.value| < MIN_SALT {
      return Err(Corrupt);
    }
    var params := if file.params.Some? then file.params.value else DEFAULT_PARAMS;
    if file.kdf.Some? && file.kdf.value != KDF_NAME {
      return Err(Corrupt);
    }
    var key := c.derive(masterKey, salt.value, params);
    if key.None? {
      return Err(Kdf);
    }
    if file.verifier.None? {
      return Err(Corrupt);
    }
    if c.unseal(key.value, file.verifier.value) != Some(c.canary) {
      return Err(WrongKey);
    }
    var secrets := ReadEntries(c, key.value, file.entries);
    if secrets.Err? {
      return Err(secrets.error);
    }
    var inner := Inner(key.value, salt.value, params, c.fingerprint(key.value), secrets.value);
    var store := new EncryptedFileSecretStore(c, disk, inner, masterKey);
    return Ok(store);
  }

  /** A first-version file is read with the old key and written again under a salted one
      before the store exists; when anything fails the old file is still there. */
  method OpenAndMigrate(c: Crypto, disk: Disk, file: SecretFile, masterKey: string, io: Io)
    returns (r: Result<EncryptedFileSecretStore, StoreError>)
    requires Lawful(c) && disk.file == Some(file) && file.version == LEGACY_VERSION
    modifies disk
    ensures r.Ok? ==>
      fresh(r.value) && r.value.disk == disk && r.value.c == c && r.value.Valid() && r.value.master == masterKey
    ensures r.Ok? ==> HoldsLegacy(c, file, masterKey, r.value.inner.secrets)
    ensures r.Ok? ==> disk.file.Some? && disk.file.value.keyId.None?
    ensures r.Err? ==> disk.file == old(disk.file)
    ensures io.random && io.writes && KdfWorks(c, masterKey) ==>
      (exists secrets :: HoldsLegacy(c, file, masterKey, secrets)) ==> r.Ok?
  {
    var legacy := c.deriveLegacy(masterKey);
    if file.keyId.None? {
      return Err(Corrupt);
    }
    if file.keyId.value != c.fingerprint(legacy) {
      return Err(WrongKey);
    }
    var secrets := ReadEntries(c, legacy, file.entries);
    if secrets.Err? {
      return Err(secrets.error);
    }
    var salt := FreshBytes(SALT_LEN, io.random);
    if salt.None? {
      return Err(Random);
    }
    var key := c.derive(masterKey, salt.value, DEFAULT_PARAMS);
    if key.None? {
      return Err(Kdf);
    }
    var inner := Inner(key.value, salt.value, DEFAULT_PARAMS, c.fingerprint(key.value), secrets.value);
    var written := disk.Write(c, inner, io, masterKey);
    if written.Err? {
      return Err(written.error);
    }
    var store := new EncryptedFileSecretStore(c, disk, inner, masterKey);
    return Ok(store);
  }

  /** Opening finds exactly the secrets the file holds: those of a current file, those of a
      first-version file it migrates, none when there is no file. */
  method Open(c: Crypto, disk: Disk, masterKey: string, io: Io)
    returns (r: Result<EncryptedFileSecretStore, StoreError>)
    requires Lawful(c)
    modifies disk
    ensures r.Ok? ==>
      fresh(r.value) && r.value.disk == disk && r.value.c == c && r.value.Valid() && r.value.master == masterKey
    ensures old(disk.file).Some? ==> forall secrets :: Holds(c, old(disk.file).value, masterKey, secrets) ==>
      r.Ok? && r.value.inner.secrets == secrets && disk.file == old(disk.file)
    ensures old(disk.file).Some? ==> forall secrets :: HoldsLegacy(c, old(disk.file).value, masterKey, secrets) ==>
      && (r.Ok? ==>
            r.value.inner.secrets == secrets && disk.file.Some? && Holds(c, disk.file.value, masterKey, secrets))
      && (io.random && io.writes && KdfWorks(c, masterKey) ==> r.Ok?)
    ensures old(disk.file).None? ==> disk.file == None && (io.random && KdfWorks(c, masterKey) ==> r.Ok?)
    ensures r.Err? ==> disk.file == old(disk.file)
  {
    if disk.file.None? {
      var salt := FreshBytes(SALT_LEN, io.random);
      if salt.None? {
        return Err(Random);
      }
      var key := c.derive(masterKey, salt.value, DEFAULT_PARAMS);
      if key.None? {
        return Err(Kdf);
      }
      var inner := Inner(key.value, salt.value, DEFAULT_PARAMS, c.fingerprint(key.value), map[]);
      var store := new EncryptedFileSecretStore(c, disk, inner, masterKey);
      return Ok(store);
    }
    var file := disk.file.value;
    if file.version == LEGACY_VERSION {
      r := OpenAndMigrate(c, disk, file, masterKey, io);
      if r.Ok? {
        var found := r.value.inner.secrets;
        forall secrets | HoldsLegacy(c, file, masterKey, secrets)
          ensures secrets == found
        {
          DecodesOnce(c, c.deriveLegacy(masterKey), file.entries, secrets, found);
        }
      }
    } else if file.version == VERSION {
      r := OpenCurrent(c, disk, file, masterKey);
      if r.Ok? {
        var found := r.value.inner.secrets;
        forall secrets | Holds(c, file, masterKey, secrets)
          ensures secrets == found
        {
          HoldsOnce(c, file, masterKey, secrets, found);
        }
      }
    } else {
      r := Err(UnsupportedVersion);
    }
  }
}
