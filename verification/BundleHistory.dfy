/** Any sequence of saves, loads, rebuilds, migrations and renewals on the bundle directories: what
    persists. */
module BundleHistory {

  import opened Prelude
  import opened Crypto
  import opened Bundles
  import opened BundleStore
  import PfxCheck

  /** Save writes any bundle; Resave is a load, a change that leaves the password alone, and a save; Rebuild
      is a load and a rebuild under the directory's own metadata. */
  datatype Op =
    | Save(b: Bundle, nonce: nat)
    | Resave(name: string, files: Files, targetPath: string, expiresAt: int, domains: seq<string>, nonce: nat)
    | Load(name: string, writeOk: bool)
    | Migrate(nonce: nat)
    | Rebuild(name: string, salts: Salts, nonce: nat)
    | Update(base: string, source: Option<(File, File)>, salts: Salts, now: nat)

  ghost function SaveInto(dirs: Dirs, b: Bundle, key: Key, nonce: nat): Dirs {
    if ValidName(b.name) then dirs[b.name := Saved(b, DirOf(dirs, b.name), key, nonce)] else dirs
  }

  ghost function Loaded(dirs: Dirs, name: string): Option<Bundle> {
    if ValidName(name) && name in dirs then Read(name, dirs[name]) else None
  }

  ghost function Step(dirs: Dirs, op: Op, key: Key): Dirs {
    match op
    case Save(b, nonce) => SaveInto(dirs, b, key, nonce)
    case Resave(name, files, targetPath, expiresAt, domains, nonce) =>
      var b := Loaded(dirs, name);
      if b.None? then dirs
      else SaveInto(dirs, b.value.(files := files, targetPath := targetPath, expiresAt := expiresAt,
                                   domains := domains), key, nonce)
    case Load(name, writeOk) =>
      if Loaded(dirs, name).Some? && writeOk then dirs[name := Healed(dirs[name])] else dirs
    case Migrate(nonce) => Migrated(dirs, key, nonce)
    case Rebuild(name, salts, nonce) =>
      var b := Loaded(dirs, name);
      if b.None? then dirs
      else
        var b' := PfxCheck.Rebuilt(b.value, dirs[name].meta.m, key, salts);
        if b'.None? then dirs else SaveInto(dirs, b'.value, key, nonce)
    case Update(base, source, salts, now) =>
      if base in dirs then dirs[base := Renewed(dirs, base, source, salts, now, key)] else dirs
  }

  ghost function Run(dirs: Dirs, ops: seq<Op>, key: Key): Dirs {
    if ops == [] then dirs else Step(Run(dirs, ops[..|ops| - 1], key), ops[|ops| - 1], key)
  }

  // ---------------------------------------------------------------- entries of others persist

  /** The directory has metadata, and this entry has this value. */
  predicate Keeps(dirs: Dirs, name: string, k: string, v: Value) {
    name in dirs && dirs[name].meta.Meta? && k in dirs[name].meta.m && dirs[name].meta.m[k] == v
  }

  lemma SaveKeeps(b: Bundle, d: Dir, key: Key, nonce: nat, k: string)
    requires k !in MANAGED && k != ENC && d.meta.Meta? && k in d.meta.m
    ensures var m := Saved(b, d, key, nonce).meta.m; k in m && m[k] == d.meta.m[k]
  {}

  lemma SaveIntoKeeps(dirs: Dirs, b: Bundle, key: Key, nonce: nat, name: string, k: string, v: Value)
    requires k !in MANAGED && k != ENC && Keeps(dirs, name, k, v)
    ensures Keeps(SaveInto(dirs, b, key, nonce), name, k, v)
  {}

  lemma StepKeepsEntry(dirs: Dirs, op: Op, key: Key, name: string, k: string, v: Value)
    requires k !in MANAGED && k != ENC && (op.Update? ==> k != "issued") && Keeps(dirs, name, k, v)
    ensures Keeps(Step(dirs, op, key), name, k, v)
  {
    hide Saved, SaveInto, Read, RenewedFiles, HashOf, PfxCheck.Rebuilt;
    match op
    case Save(b, nonce) => SaveIntoKeeps(dirs, b, key, nonce, name, k, v);
    case Resave(n, files, targetPath, expiresAt, domains, nonce) =>
      var b := Loaded(dirs, n);
      if b.Some? {
        SaveIntoKeeps(dirs, b.value.(files := files, targetPath := targetPath, expiresAt := expiresAt,
                                     domains := domains), key, nonce, name, k, v);
      }
    case Rebuild(n, salts, nonce) =>
      var b := Loaded(dirs, n);
      if b.Some? {
        LoadedHasMeta(dirs, n);
        var b' := PfxCheck.Rebuilt(b.value, dirs[n].meta.m, key, salts);
        if b'.Some? { SaveIntoKeeps(dirs, b'.value, key, nonce, name, k, v); }
      }
    case Load(n, writeOk) => if Loaded(dirs, n).Some? { LoadedHasMeta(dirs, n); }
    case Migrate(nonce) =>
    case Update(base, source, salts, now) =>
  }

  lemma LoadedHasMeta(dirs: Dirs, name: string)
    requires Loaded(dirs, name).Some?
    ensures name in dirs && dirs[name].meta.Meta? && WellTyped(dirs[name].meta.m)
    ensures Loaded(dirs, name).value.password == TextAt(dirs[name].meta.m, "pfx_password")
    ensures Loaded(dirs, name).value.name == name && Loaded(dirs, name).value.files == dirs[name].files
  {}

  /** Entries of meta.json that the bundle structure does not own survive everything, the sealed password
      excepted, and the date of issue where a renewal sets it. */
  lemma {:induction false} EntriesPersist(dirs: Dirs, ops: seq<Op>, key: Key, name: string, k: string, v: Value)
    requires k !in MANAGED && k != ENC && Keeps(dirs, name, k, v)
    requires k == "issued" ==> forall op :: op in ops ==> !op.Update?
    ensures Keeps(Run(dirs, ops, key), name, k, v)
  {
    hide Step, Keeps;
    if ops != [] {
      EntriesPersist(dirs, ops[..|ops| - 1], key, name, k, v);
      assert ops[|ops| - 1] in ops;
      StepKeepsEntry(Run(dirs, ops[..|ops| - 1], key), ops[|ops| - 1], key, name, k, v);
    }
  }

  /** The owned entries always come from the bundle that was saved, and the plain password never does. */
  lemma ManagedComeFromTheBundle(b: Bundle, d: Dir, key: Key, nonce: nat)
    ensures var m := Saved(b, d, key, nonce).meta.m;
            forall k :: k in MANAGED ==> (k in m <==> k in Struct(b, HashOf(b.files)))
                                         && (k in m ==> m[k] == Struct(b, HashOf(b.files))[k])
    ensures "pfx_password" !in Saved(b, d, key, nonce).meta.m
  {
    assert forall k :: k in MANAGED ==> k !in Extra(b, d.meta, key, nonce);
  }

  /** A load after a save gives the saved bundle, its files laid over what the directory held. */
  lemma LoadAfterSave(b: Bundle, d: Dir, key: Key, nonce: nat)
    ensures Read(b.name, Saved(b, d, key, nonce))
            == Some(b.(files := d.files + b.files, hash := HashOf(d.files + b.files), password := ""))
  {
    hide HashOf;
    var m := Saved(b, d, key, nonce).meta.m;
    ManagedComeFromTheBundle(b, d, key, nonce);
    assert {"name", "target_path", "expires_at", "domains", "hash"} <= MANAGED;
    assert m["name"] == Text(b.name) && m["target_path"] == Text(b.targetPath);
    assert m["expires_at"] == Time(b.expiresAt) && m["domains"] == List(b.domains) && m["hash"].Digest?;
  }

  /** After a load that could write, the stored hash is that of the files on disk; after a save it is so
      exactly if files left over from before do not matter. */
  lemma StoredHashIsRight(b: Bundle, d: Dir, key: Key, nonce: nat)
    ensures d.meta.Meta? ==> HashAt(Healed(d).meta.m) == HashOf(Healed(d).files)
    ensures var s := Saved(b, d, key, nonce);
            HashAt(s.meta.m) == HashOf(s.files) <==> HashOf(b.files) == HashOf(d.files + b.files)
  {}

  /** After a renewal the stored hash is that of the files on disk, regenerated containers included. */
  lemma RenewedHashIsRight(dirs: Dirs, base: string, source: Option<(File, File)>, salts: Salts, now: nat, key: Key)
    requires base in dirs
    ensures var d := Step(dirs, Update(base, source, salts, now), key)[base];
            d.meta.Meta? && HashAt(d.meta.m) == HashOf(d.files)
            && forall n :: n in dirs[base].files && n != "cert.pfx" && n != "cert-modern.pfx" ==>
                 n in d.files && d.files[n] == dirs[base].files[n]
  {
    hide HashOf, Resolve, GeneratePfx;
  }

  // ---------------------------------------------------------------- the password persists

  /** The metadata yields this password, and holds no other one. */
  predicate Holds(m: Meta, key: Key, pw: string) {
    pw != "" && Resolve(m, key) == Some(pw) && (TextAt(m, "pfx_password") != "" ==> TextAt(m, "pfx_password") == pw)
  }

  predicate DirHolds(dirs: Dirs, name: string, key: Key, pw: string) {
    name in dirs && dirs[name].meta.Meta? && Holds(dirs[name].meta.m, key, pw)
  }

  /** A save keeps the password exactly when it brings the same one, or brings none and the one there is
      not merely plain text. */
  lemma SaveKeepsPasswordExactly(b: Bundle, d: Dir, key: Key, nonce: nat)
    requires d.meta.Meta? && Resolve(d.meta.m, key).Some?
    ensures Resolve(Saved(b, d, key, nonce).meta.m, key) == Resolve(d.meta.m, key) <==>
              if b.password != "" then Some(b.password) == Resolve(d.meta.m, key)
              else HasEnc(d.meta.m) || Resolve(d.meta.m, key) == Some(DEFAULT_PASSWORD)
  {}

  lemma SaveHolds(b: Bundle, d: Dir, key: Key, nonce: nat, pw: string)
    requires d.meta.Meta? && Holds(d.meta.m, key, pw)
    requires b.password == pw || b.password == TextAt(d.meta.m, "pfx_password")
    ensures Saved(b, d, key, nonce).meta.Meta? && Holds(Saved(b, d, key, nonce).meta.m, key, pw)
  {
    hide HashOf;
    SaveKeepsPasswordExactly(b, d, key, nonce);
    ManagedComeFromTheBundle(b, d, key, nonce);
  }

  lemma SaveIntoHolds(dirs: Dirs, b: Bundle, key: Key, nonce: nat, name: string, pw: string)
    requires DirHolds(dirs, name, key, pw)
    requires b.name == name ==> b.password == pw || b.password == TextAt(dirs[name].meta.m, "pfx_password")
    ensures DirHolds(SaveInto(dirs, b, key, nonce), name, key, pw)
  {
    hide Saved, Holds;
    if b.name == name { SaveHolds(b, dirs[name], key, nonce, pw); }
  }

  lemma MigrateHolds(d: Dir, key: Key, nonce: nat, pw: string)
    requires d.meta.Meta? && Holds(d.meta.m, key, pw)
    ensures MigratedDir(d, key, nonce).meta.Meta? && Holds(MigratedDir(d, key, nonce).meta.m, key, pw)
    ensures TextAt(MigratedDir(d, key, nonce).meta.m, "pfx_password") == ""
  {}

  lemma HashEntryIsNoMatter(m: Meta, h: Hash, now: nat, key: Key, pw: string)
    requires Holds(m, key, pw)
    ensures Holds(m["hash" := Digest(h)], key, pw)
    ensures Holds(m["hash" := Digest(h)]["issued" := Json(now)], key, pw)
  {}

  lemma RebuildPasswordIs(b: Bundle, m: Meta, key: Key, salts: Salts, pw: string)
    requires Holds(m, key, pw) && b.password == TextAt(m, "pfx_password")
    requires PfxCheck.Rebuilt(b, m, key, salts).Some?
    ensures PfxCheck.Rebuilt(b, m, key, salts).value.password == pw
    ensures PfxCheck.Rebuilt(b, m, key, salts).value.name == b.name
  {}

  lemma StepHolds(dirs: Dirs, op: Op, key: Key, name: string, pw: string)
    requires DirHolds(dirs, name, key, pw) && (op.Save? ==> op.b.name != name)
    ensures DirHolds(Step(dirs, op, key), name, key, pw)
  {
    hide Saved, Holds, SaveInto, Read, RenewedFiles, HashOf, MigratedDir, PfxCheck.Rebuilt;
    match op
    case Save(b, nonce) => SaveIntoHolds(dirs, b, key, nonce, name, pw);
    case Resave(n, files, targetPath, expiresAt, domains, nonce) =>
      var b := Loaded(dirs, n);
      if b.Some? {
        LoadedHasMeta(dirs, n);
        SaveIntoHolds(dirs, b.value.(files := files, targetPath := targetPath, expiresAt := expiresAt,
                                     domains := domains), key, nonce, name, pw);
      }
    case Rebuild(n, salts, nonce) =>
      var b := Loaded(dirs, n);
      if b.Some? {
        LoadedHasMeta(dirs, n);
        RebuildHolds(dirs, n, salts, nonce, key, name, pw);
      }
    case Load(n, writeOk) =>
      if Loaded(dirs, n).Some? {
        LoadedHasMeta(dirs, n);
        HashEntryIsNoMatter(dirs[name].meta.m, HashOf(dirs[name].files), 0, key, pw);
      }
    case Migrate(nonce) => MigrateHolds(dirs[name], key, nonce, pw);
    case Update(base, source, salts, now) =>
      if base == name {
        HashEntryIsNoMatter(dirs[name].meta.m, HashOf(RenewedFiles(dirs, base, source, salts, key)), now, key, pw);
      }
  }

  lemma RebuildHolds(dirs: Dirs, n: string, salts: Salts, nonce: nat, key: Key, name: string, pw: string)
    requires DirHolds(dirs, name, key, pw) && Loaded(dirs, n).Some?
    ensures DirHolds(Step(dirs, Rebuild(n, salts, nonce), key), name, key, pw)
  {
    hide Holds, SaveInto, Read, PfxCheck.Rebuilt;
    LoadedHasMeta(dirs, n);
    var b := Loaded(dirs, n).value;
    var b' := PfxCheck.Rebuilt(b, dirs[n].meta.m, key, salts);
    if b'.Some? {
      PfxCheck.RebuiltPassword(b, dirs[n].meta.m, key, salts);
      if n == name { RebuildPasswordIs(b, dirs[n].meta.m, key, salts, pw); }
      SaveIntoHolds(dirs, b'.value, key, nonce, name, pw);
    }
  }

  /** Starting from metadata that does not hold two different passwords, no sequence of loads, changes,
      rebuilds, migrations and renewals - on this and other directories - changes the password. */
  lemma {:induction false} PasswordPersists(dirs: Dirs, ops: seq<Op>, key: Key, name: string, pw: string)
    requires DirHolds(dirs, name, key, pw)
    requires forall op :: op in ops && op.Save? ==> op.b.name != name
    ensures DirHolds(Run(dirs, ops, key), name, key, pw)
    ensures Resolve(Run(dirs, ops, key)[name].meta.m, key) == Some(pw)
  {
    hide Step, Resolve;
    if ops != [] {
      assert ops[|ops| - 1] in ops;
      PasswordPersists(dirs, ops[..|ops| - 1], key, name, pw);
      StepHolds(Run(dirs, ops[..|ops| - 1], key), ops[|ops| - 1], key, name, pw);
    }
    HoldsResolves(Run(dirs, ops, key)[name].meta.m, key, pw);
  }

  /** No password stands there in plain: so it is after every start, and after every save. */
  predicate NoPlain(dirs: Dirs, name: string) {
    name in dirs && dirs[name].meta.Meta? && TextAt(dirs[name].meta.m, "pfx_password") == ""
  }

  /** The password of the last save that brought one. */
  function LastPassword(ops: seq<Op>, name: string, pw: string): string {
    if ops == [] then pw
    else
      var op := ops[|ops| - 1];
      if op.Save? && op.b.name == name && ValidName(name) && op.b.password != "" then op.b.password
      else LastPassword(ops[..|ops| - 1], name, pw)
  }

  lemma SaveSets(dirs: Dirs, b: Bundle, key: Key, nonce: nat, pw: string)
    requires DirHolds(dirs, b.name, key, pw) && NoPlain(dirs, b.name)
    ensures DirHolds(SaveInto(dirs, b, key, nonce), b.name, key,
                     if ValidName(b.name) && b.password != "" then b.password else pw)
  {
    hide HashOf;
    if ValidName(b.name) {
      SaveKeepsPasswordExactly(b, dirs[b.name], key, nonce);
      ManagedComeFromTheBundle(b, dirs[b.name], key, nonce);
      if b.password != "" { SaveStoresPassword(b, dirs[b.name], key, nonce); }
    }
  }

  lemma SaveIntoNoPlain(dirs: Dirs, b: Bundle, key: Key, nonce: nat, name: string)
    requires NoPlain(dirs, name)
    ensures NoPlain(SaveInto(dirs, b, key, nonce), name)
  {
    hide HashOf;
    if ValidName(b.name) { ManagedComeFromTheBundle(b, DirOf(dirs, b.name), key, nonce); }
  }

  lemma StepNoPlain(dirs: Dirs, op: Op, key: Key, name: string)
    requires NoPlain(dirs, name)
    ensures NoPlain(Step(dirs, op, key), name)
  {
    hide SaveInto, Read, RenewedFiles, HashOf, PfxCheck.Rebuilt;
    match op
    case Save(b, nonce) => SaveIntoNoPlain(dirs, b, key, nonce, name);
    case Resave(n, files, targetPath, expiresAt, domains, nonce) =>
      var b := Loaded(dirs, n);
      if b.Some? {
        SaveIntoNoPlain(dirs, b.value.(files := files, targetPath := targetPath, expiresAt := expiresAt,
                                       domains := domains), key, nonce, name);
      }
    case Rebuild(n, salts, nonce) =>
      var b := Loaded(dirs, n);
      if b.Some? {
        LoadedHasMeta(dirs, n);
        var b' := PfxCheck.Rebuilt(b.value, dirs[n].meta.m, key, salts);
        if b'.Some? { SaveIntoNoPlain(dirs, b'.value, key, nonce, name); }
      }
    case Load(n, writeOk) => if Loaded(dirs, n).Some? { LoadedHasMeta(dirs, n); }
    case Migrate(nonce) =>
    case Update(base, source, salts, now) =>
  }

  /** Once no password stands in plain, any sequence whatever - saves of new bundles included - leaves the
      password of the last save that brought one. */
  lemma {:induction false} PasswordIsTheLastSaved(dirs: Dirs, ops: seq<Op>, key: Key, name: string, pw: string)
    requires DirHolds(dirs, name, key, pw) && NoPlain(dirs, name)
    ensures DirHolds(Run(dirs, ops, key), name, key, LastPassword(ops, name, pw)) && NoPlain(Run(dirs, ops, key), name)
    ensures Resolve(Run(dirs, ops, key)[name].meta.m, key) == Some(LastPassword(ops, name, pw))
  {
    hide Step, Resolve, NoPlain, Holds;
    if ops != [] {
      var init, op := ops[..|ops| - 1], ops[|ops| - 1];
      var before := Run(dirs, init, key);
      PasswordIsTheLastSaved(dirs, init, key, name, pw);
      StepNoPlain(before, op, key, name);
      if op.Save? && op.b.name == name {
        SaveSets(before, op.b, key, op.nonce, LastPassword(init, name, pw));
        SaveIs(before, op, key);
      } else {
        StepHolds(before, op, key, name, LastPassword(init, name, pw));
      }
    }
    HoldsResolves(Run(dirs, ops, key)[name].meta.m, key, LastPassword(ops, name, pw));
  }

  lemma SaveIs(dirs: Dirs, op: Op, key: Key)
    requires op.Save?
    ensures Step(dirs, op, key) == SaveInto(dirs, op.b, key, op.nonce)
  {}

  lemma HoldsResolves(m: Meta, key: Key, pw: string)
    requires Holds(m, key, pw)
    ensures Resolve(m, key) == Some(pw)
  {}

  /** Two different passwords: the sealed one counts until the migration seals the plain one over it. */
  lemma MigrationKeepsPasswordExactly(d: Dir, key: Key, nonce: nat)
    requires d.meta.Meta? && Resolve(d.meta.m, key).Some?
    ensures Resolve(MigratedDir(d, key, nonce).meta.m, key) == Resolve(d.meta.m, key) <==>
              TextAt(d.meta.m, "pfx_password") == "" || Resolve(d.meta.m, key) == Some(TextAt(d.meta.m, "pfx_password"))
  {}

  // ---------------------------------------------------------------- containers and the password

  predicate OpensWith(files: Files, pw: string) {
    forall n :: n in {"cert.pfx", "cert-modern.pfx"} ==> n in files && OpenPfx(files[n], pw).Some?
  }

  /** Containers a rebuild writes open with the password of the directory. */
  lemma RebuildOpens(dirs: Dirs, name: string, salts: Salts, nonce: nat, key: Key, pw: string)
    requires DirHolds(dirs, name, key, pw) && Loaded(dirs, name).Some?
    requires PfxCheck.Rebuilt(Loaded(dirs, name).value, dirs[name].meta.m, key, salts).Some?
    ensures var dirs' := Step(dirs, Rebuild(name, salts, nonce), key);
            DirHolds(dirs', name, key, pw) && OpensWith(dirs'[name].files, pw)
  {
    hide Holds, Read, PfxCheck.Rebuilt, OpenPfx;
    LoadedHasMeta(dirs, name);
    var b := Loaded(dirs, name).value;
    RebuildHolds(dirs, name, salts, nonce, key, name, pw);
    PfxCheck.RebuiltPassword(b, dirs[name].meta.m, key, salts);
    RebuildPasswordIs(b, dirs[name].meta.m, key, salts, pw);
    var b' := PfxCheck.Rebuilt(b, dirs[name].meta.m, key, salts).value;
    SaveOverlaysFiles(b', dirs[name], key, nonce);
  }

  /** Containers a renewal writes open with the password of the bundle directory, which is where agents and
      the manager look for it.  The issuing directory itself holds no password. */
  lemma RenewalOpens(dirs: Dirs, base: string, cert: File, privkey: File, salts: Salts, now: nat, key: Key, pw: string)
    requires base in dirs && DirHolds(dirs, BundleName(base), key, pw)
    requires dirs[base].meta.Meta? ==>
               base == BundleName(base) || Resolve(dirs[base].meta.m, key) == Some(DEFAULT_PASSWORD)
    requires CertsOf(cert) != [] && StartsWithKey(privkey)
    ensures OpensWith(Step(dirs, Update(base, Some((cert, privkey)), salts, now), key)[base].files, pw)
  {}

  /** When the password cannot be read, a renewal leaves the old containers alone. */
  lemma NoRenewalWithoutPassword(dirs: Dirs, base: string, source: Option<(File, File)>, salts: Salts, now: nat,
                                 key: Key)
    requires base in dirs && RenewalPassword(dirs, base, key).None?
    ensures Step(dirs, Update(base, source, salts, now), key)[base].files == dirs[base].files
  {}
}
