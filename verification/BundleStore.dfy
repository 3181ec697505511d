/** Certificate bundles on the manager's disk: files beside a metadata file whose entries have two owners,
    and the password of the PFX containers. */
module BundleStore {

  import opened Prelude
  import opened Crypto
  import opened Bundles
  import Names

  /** An entry of meta.json. */
  datatype Value = Text(s: string) | Ct(c: Cipher<string>) | Digest(h: Hash) | Time(t: int)
                 | List(items: seq<string>) | Json(n: nat)

  type Meta = map<string, Value>

  datatype MetaFile = NoMeta | BadMeta | Meta(m: Meta)

  /** A bundle directory; files does not include meta.json. */
  datatype Dir = Dir(files: Files, meta: MetaFile)

  type Dirs = map<string, Dir>

  datatype Bundle = Bundle(name: string, files: Files, targetPath: string, expiresAt: int,
                           domains: seq<string>, hash: Hash, password: string)

  const MANAGED: set<string> := {"name", "files", "target_path", "expires_at", "domains", "hash", "pfx_password"}
  const ENC := "pfx_password_enc"
  const DEFAULT_PASSWORD := "ddns"

  function TrimSlashes(path: string): string {
    if path != "" && path[|path| - 1] == '/' then TrimSlashes(path[..|path| - 1]) else path
  }

  /** What stands after the last slash. */
  function LastElement(path: string): (r: string)
    ensures '/' !in r && |r| <= |path|
    ensures '/' !in path ==> r == path
  {
    if path == "" || path[|path| - 1] == '/' then "" else LastElement(path[..|path| - 1]) + [path[|path| - 1]]
  }

  /** filepath.Base */
  function Base(path: string): string {
    if path == "" then "."
    else if TrimSlashes(path) == "" then "/"
    else LastElement(TrimSlashes(path))
  }

  /** sanitizeBundleName */
  predicate ValidName(name: string) { name != "" && Base(name) == name }

  /** A valid name has no slash, with one exception: a lone slash passes. */
  lemma ValidNameExactly(name: string)
    ensures ValidName(name) <==> name == "/" || (name != "" && '/' !in name)
  {
    if name == "/" { assert TrimSlashes(name) == TrimSlashes("") == ""; }
    if '/' !in name && name != "" { assert name[|name| - 1] in name; }
  }

  // ---------------------------------------------------------------- reading a bundle

  function TextAt(m: Meta, k: string): string { if k in m && m[k].Text? then m[k].s else "" }

  function HashAt(m: Meta): Hash { if "hash" in m && m["hash"].Digest? then m["hash"].h else NoHash }

  /** The entries the bundle structure reads have the types it expects. */
  predicate WellTyped(m: Meta) {
    ("name" in m ==> m["name"].Text?) && ("target_path" in m ==> m["target_path"].Text?)
    && ("expires_at" in m ==> m["expires_at"].Time?) && ("domains" in m ==> m["domains"].List?)
    && ("hash" in m ==> m["hash"].Digest?) && ("pfx_password" in m ==> m["pfx_password"].Text?)
  }

  /** What LoadCertBundle makes of a directory. */
  ghost function Read(name: string, d: Dir): Option<Bundle> {
    if !d.meta.Meta? || !WellTyped(d.meta.m) then None
    else
      var m := d.meta.m;
      Some(Bundle(name, d.files, TextAt(m, "target_path"), if "expires_at" in m then m["expires_at"].t else 0,
                  if "domains" in m then m["domains"].items else [], HashOf(d.files), TextAt(m, "pfx_password")))
  }

  /** A directory can be read exactly if it has metadata whose entries for the bundle are of their types. */
  lemma ReadableExactly(name: string, d: Dir)
    ensures Read(name, d).None? <==>
              !d.meta.Meta?
              || (exists k :: k in {"name", "target_path", "pfx_password"} && k in d.meta.m && !d.meta.m[k].Text?)
              || ("expires_at" in d.meta.m && !d.meta.m["expires_at"].Time?)
              || ("domains" in d.meta.m && !d.meta.m["domains"].List?)
              || ("hash" in d.meta.m && !d.meta.m["hash"].Digest?)
  {
    hide HashOf;
    if d.meta.Meta? {
      var texts := {"name", "target_path", "pfx_password"};
      assert "name" in texts && "target_path" in texts && "pfx_password" in texts;
    }
  }

  /** A stale hash in the metadata is corrected. */
  ghost function Healed(d: Dir): Dir
    requires d.meta.Meta?
  {
    if HashAt(d.meta.m) == HashOf(d.files) then d
    else d.(meta := Meta(d.meta.m["hash" := Digest(HashOf(d.files))]))
  }

  // ---------------------------------------------------------------- writing a bundle

  /** The entries the bundle structure owns; the password is never among them. */
  function Struct(b: Bundle, h: Hash): Meta {
    map["name" := Text(b.name), "target_path" := Text(b.targetPath), "expires_at" := Time(b.expiresAt),
        "domains" := List(b.domains), "hash" := Digest(h)]
  }

  /** The entries other parts of the program put there, which a save must not lose. */
  function Unmanaged(f: MetaFile): Meta {
    if f.Meta? then map k | k in f.m && k !in MANAGED :: f.m[k] else map[]
  }

  function SealedPassword(password: string, key: Key, nonce: nat): Value {
    Ct(Encrypt(key, PfxPasswordAtRest, nonce, password))
  }

  function Extra(b: Bundle, f: MetaFile, key: Key, nonce: nat): Meta {
    if b.password != "" then Unmanaged(f)[ENC := SealedPassword(b.password, key, nonce)] else Unmanaged(f)
  }

  /** A directory after a save. */
  ghost function Saved(b: Bundle, d: Dir, key: Key, nonce: nat): Dir {
    Dir(d.files + b.files, Meta(Struct(b, HashOf(b.files)) + Extra(b, d.meta, key, nonce)))
  }

  lemma SaveStoresPassword(b: Bundle, d: Dir, key: Key, nonce: nat)
    requires b.password != ""
    ensures Saved(b, d, key, nonce).meta.Meta? && Resolve(Saved(b, d, key, nonce).meta.m, key) == Some(b.password)
  {}

  /** The entries of others, the sealed password aside, are the same. */
  ghost predicate SameEntries(d: Dir, d': Dir) {
    d.meta.Meta? && d'.meta.Meta?
    && forall k :: k !in MANAGED && k != ENC ==>
         (k in d.meta.m <==> k in d'.meta.m) && (k in d.meta.m ==> d'.meta.m[k] == d.meta.m[k])
  }

  lemma SaveLeavesEntries(b: Bundle, d0: Dir, d: Dir, key: Key, nonce: nat)
    requires SameEntries(d0, d)
    ensures SameEntries(d0, Saved(b, d, key, nonce))
  {
    hide HashOf;
    assert Struct(b, HashOf(b.files)).Keys <= MANAGED;
  }

  lemma SaveOverlaysFiles(b: Bundle, d: Dir, key: Key, nonce: nat)
    ensures Saved(b, d, key, nonce).files == d.files + b.files
    ensures d.files.Keys <= b.files.Keys ==> Saved(b, d, key, nonce).files == b.files
  {}

  function DirOf(dirs: Dirs, name: string): Dir { if name in dirs then dirs[name] else Dir(map[], NoMeta) }

  // ---------------------------------------------------------------- passwords

  predicate HasEnc(m: Meta) { ENC in m && (m[ENC].Ct? || (m[ENC].Text? && m[ENC].s != "")) }

  /** MetaPFXPassword: sealed, else plain, else default; a sealed one that does not open is an error. */
  function Resolve(m: Meta, key: Key): Option<string> {
    if HasEnc(m) then (if m[ENC].Ct? then Decrypt(key, PfxPasswordAtRest, m[ENC].c) else None)
    else if TextAt(m, "pfx_password") != "" then Some(TextAt(m, "pfx_password"))
    else Some(DEFAULT_PASSWORD)
  }

  /** Start-up migration of one directory. */
  function MigratedDir(d: Dir, key: Key, nonce: nat): Dir {
    if !d.meta.Meta? || TextAt(d.meta.m, "pfx_password") == "" then d
    else
      var pw := TextAt(d.meta.m, "pfx_password");
      d.(meta := Meta(d.meta.m["pfx_password" := Text("")][ENC := SealedPassword(pw, key, nonce)]))
  }

  function Migrated(dirs: Dirs, key: Key, nonce: nat): Dirs {
    map n | n in dirs :: MigratedDir(dirs[n], key, nonce)
  }

  // ---------------------------------------------------------------- names of bundle directories

  predicate HasPrefix(s: string, p: string) { p <= s }

  /** issueBundleName, and bundleDirForCertDir on the last path element: the prefix is added once. */
  function BundleName(certName: string): (r: string)
    ensures HasPrefix(r, "acme-")
    ensures HasPrefix(certName, "acme-") ==> r == certName
    ensures !HasPrefix(certName, "acme-") ==> |r| == 5 + |certName| && r[5..] == certName
  {
    if HasPrefix(certName, "acme-") then certName else "acme-" + certName
  }

  /** Two certificates share a bundle directory exactly when they have the same name up to one prefix. */
  lemma SharedBundle(a: string, b: string)
    ensures BundleName(a) == BundleName(b)
            <==> a == b || (HasPrefix(a, "acme-") && a == "acme-" + b && !HasPrefix(b, "acme-"))
                        || (HasPrefix(b, "acme-") && b == "acme-" + a && !HasPrefix(a, "acme-"))
  {
    if !HasPrefix(a, "acme-") && !HasPrefix(b, "acme-") {
      assert ("acme-" + a)[5..] == a && ("acme-" + b)[5..] == b;
    }
  }

  // ---------------------------------------------------------------- after an ACME renewal

  /** The password UpdateCertMeta generates containers with: the directory's own, or, when that is the
      default, the one of the Manager's bundle directory. */
  function RenewalPassword(dirs: Dirs, base: string, key: Key): Option<string> {
    var d := DirOf(dirs, base);
    var own := Resolve(if d.meta.Meta? then d.meta.m else map[], key);
    if own != Some(DEFAULT_PASSWORD) then own
    else
      var bundle := DirOf(dirs, BundleName(base));
      if bundle.meta.Meta? then Resolve(bundle.meta.m, key) else own
  }

  datatype Salts = Salts(legacy: nat, modern: nat)

  /** Both containers regenerated, as far as that is possible. */
  function WithContainers(files: Files, cert: File, privkey: File, pw: string, salts: Salts): Files {
    var legacy := GeneratePfx(cert, privkey, pw, salts.legacy);
    var modern := GeneratePfx(cert, privkey, pw, salts.modern);
    if legacy.Some? && modern.Some? then files["cert.pfx" := legacy.value]["cert-modern.pfx" := modern.value]
    else files
  }

  /** source: the certificate and key files picked, when the directory has both. */
  function RenewedFiles(dirs: Dirs, base: string, source: Option<(File, File)>, salts: Salts, key: Key): Files {
    var files := DirOf(dirs, base).files;
    var pw := RenewalPassword(dirs, base, key);
    if source.None? || pw.None? then files
    else WithContainers(files, source.value.0, source.value.1, pw.value, salts)
  }

  ghost function Renewed(dirs: Dirs, base: string, source: Option<(File, File)>, salts: Salts, now: nat, key: Key)
    : Dir
  {
    var d := DirOf(dirs, base);
    var files := RenewedFiles(dirs, base, source, salts, key);
    var m := if d.meta.Meta? then d.meta.m else map[];
    Dir(files, Meta(m["hash" := Digest(HashOf(files))]["issued" := Json(now)]))
  }

  // ---------------------------------------------------------------- the store

  class Store {
    const key: Key
    var dirs: Dirs

    constructor (key: Key, dirs: Dirs)
      ensures this.key == key && this.dirs == dirs
    {
      this.key, this.dirs := key, dirs;
    }

    /** The files are laid over what the directory holds; the metadata is the bundle's own entries and
        everybody else's. */
    method SaveCertBundle(b: Bundle, nonce: nat) returns (hash: Option<Hash>)
      modifies this
      ensures hash == if ValidName(b.name) then Some(HashOf(b.files)) else None
      ensures dirs == if ValidName(b.name)
                      then old(dirs)[b.name := Saved(b, DirOf(old(dirs), b.name), key, nonce)]
                      else old(dirs)
    {
      if !ValidName(b.name) { return None; }
      var d := DirOf(dirs, b.name);
      var files := WriteFiles(d.files, b.files);
      var h := ComputeBundleHash(b.files);
      var extra := KeepUnmanaged(d.meta);
      if b.password != "" { extra := extra[ENC := SealedPassword(b.password, key, nonce)]; }
      dirs := dirs[b.name := Dir(files, Meta(Struct(b, h) + extra))];
      hash := Some(h);
    }

    method WriteFiles(onDisk: Files, files: Files) returns (r: Files)
      ensures r == onDisk + files
    {
      hide Names.Sorted;
      var names := Names.SortedNames(files.Keys);
      r := onDisk;
      var i := 0;
      ghost var written: set<string> := {};
      while i < |names|
        invariant 0 <= i <= |names|
        invariant forall j :: 0 <= j < i ==> names[j] in written
        invariant r == onDisk + map n | n in files && n in written :: files[n]
      {
        assert names[i] in names;
        r := r[names[i] := files[names[i]]];
        written := written + {names[i]};
        i := i + 1;
      }
      assert forall n :: n in files ==> n in names;
      assert (map n | n in files && n in written :: files[n]) == files;
    }

    method KeepUnmanaged(f: MetaFile) returns (extra: Meta)
      ensures extra == Unmanaged(f)
    {
      extra := map[];
      if f.Meta? {
        var todo := f.m.Keys;
        while todo != {}
          invariant todo <= f.m.Keys
          invariant extra == map k | k in f.m && k !in todo && k !in MANAGED :: f.m[k]
        {
          HasMember(todo);
          var k :| k in todo;
          if k !in MANAGED { extra := extra[k := f.m[k]]; }
          todo := todo - {k};
        }
      }
    }

    /** LoadCertBundle computes the hash afresh and corrects the metadata; that write may fail. */
    method LoadCertBundle(name: string, writeOk: bool) returns (b: Option<Bundle>)
      modifies this
      ensures b == if ValidName(name) && name in old(dirs) then Read(name, old(dirs)[name]) else None
      ensures dirs == if b.Some? && writeOk then old(dirs)[name := Healed(old(dirs)[name])] else old(dirs)
    {
      if !ValidName(name) || name !in dirs { return None; }
      var d := dirs[name];
      if !d.meta.Meta? || !WellTyped(d.meta.m) { return None; }
      var m := d.meta.m;
      var computed := ComputeBundleHash(d.files);
      if computed != HashAt(m) && writeOk {
        dirs := dirs[name := d.(meta := Meta(m["hash" := Digest(computed)]))];
      } else {
        assert dirs[name := d] == dirs;
      }
      b := Some(Bundle(name, d.files, TextAt(m, "target_path"), if "expires_at" in m then m["expires_at"].t else 0,
                       if "domains" in m then m["domains"].items else [], computed, TextAt(m, "pfx_password")));
    }

    /** MigratePlaintextPFXPasswords: one pass over the directories. */
    method MigratePasswords(nonce: nat) returns (converted: nat)
      modifies this
      ensures dirs == Migrated(old(dirs), key, nonce)
      ensures converted == |set n | n in old(dirs) && old(dirs)[n] != dirs[n]|
    {
      ghost var before := dirs;
      ghost var changed: set<string> := {};
      converted := 0;
      var todo := dirs.Keys;
      while todo != {}
        invariant todo <= before.Keys && dirs.Keys == before.Keys
        invariant forall n :: n in before ==>
                    dirs[n] == if n in todo then before[n] else MigratedDir(before[n], key, nonce)
        invariant changed == (set n | n in before && before[n] != dirs[n]) && converted == |changed|
      {
        HasMember(todo);
        var n :| n in todo;
        var d := dirs[n];
        if d.meta.Meta? && TextAt(d.meta.m, "pfx_password") != "" {
          var pw := TextAt(d.meta.m, "pfx_password");
          var ct := Encrypt(key, PfxPasswordAtRest, nonce, pw);
          if Decrypt(key, PfxPasswordAtRest, ct) == Some(pw) {
            dirs := dirs[n := d.(meta := Meta(d.meta.m["pfx_password" := Text("")][ENC := Ct(ct)]))];
            assert dirs[n].meta.m["pfx_password"] != d.meta.m["pfx_password"];
            changed := changed + {n};
            converted := converted + 1;
          }
        }
        todo := todo - {n};
      }
    }

    /** UpdateCertMeta on one certificate directory. */
    method UpdateCertMeta(base: string, source: Option<(File, File)>, salts: Salts, now: nat)
      requires base in dirs
      modifies this
      ensures dirs == old(dirs)[base := Renewed(old(dirs), base, source, salts, now, key)]
    {
      hide Resolve, WithContainers, HashOf;
      var d := dirs[base];
      var m := if d.meta.Meta? then d.meta.m else map[];
      var files := d.files;
      if source.Some? {
        var password := Resolve(m, key);
        if password == Some(DEFAULT_PASSWORD) && BundleName(base) in dirs && dirs[BundleName(base)].meta.Meta? {
          password := Resolve(dirs[BundleName(base)].meta.m, key);
        }
        if password.Some? {
          files := WithContainers(files, source.value.0, source.value.1, password.value, salts);
        }
      }
      var h := ComputeBundleHash(files);
      dirs := dirs[base := Dir(files, Meta(m["hash" := Digest(h)]["issued" := Json(now)]))];
    }

    /** handleSetCertPFXPassword: the new password is stored first, then the containers are regenerated. */
    method SetPassword(name: string, password: string, source: Option<(File, File)>, salts: Salts,
                       writeOk: bool, nonce: nat)
      returns (found: bool)
      modifies this
      ensures !found ==> dirs == old(dirs)
      ensures found <==> ValidName(name) && name in old(dirs) && Read(name, old(dirs)[name]).Some?
      ensures found ==> name in dirs && dirs[name].meta.Meta?
                        && Resolve(dirs[name].meta.m, key) == Some(Effective(password))
      ensures found ==> dirs == old(dirs)[name := dirs[name]] && SameEntries(old(dirs)[name], dirs[name])
      ensures found ==> dirs[name].files == if source.None? then old(dirs)[name].files else
                WithContainers(old(dirs)[name].files, source.value.0, source.value.1, Effective(password), salts)
    {
      hide Saved, Read, Resolve, WithContainers, SameEntries;
      var pw := Effective(password);
      ghost var files := DirOf(dirs, name).files;
      var b := LoadCertBundle(name, writeOk);
      if b.None? { return false; }
      ReadFacts(name, old(dirs)[name]);
      assert DirOf(dirs, name).files == files;
      var bundle := b.value.(password := pw);
      SaveStoresPassword(bundle, DirOf(dirs, name), key, nonce);
      SaveOverlaysFiles(bundle, DirOf(dirs, name), key, nonce);
      SaveLeavesEntries(bundle, old(dirs)[name], DirOf(dirs, name), key, nonce);
      var h := SaveCertBundle(bundle, nonce);
      assert DirOf(dirs, name).files == files;
      if source.Some? {
        bundle := bundle.(files := WithContainers(bundle.files, source.value.0, source.value.1, pw, salts));
        ContainersAdd(files, source.value.0, source.value.1, pw, salts);
        SaveStoresPassword(bundle, DirOf(dirs, name), key, nonce + 1);
        SaveOverlaysFiles(bundle, DirOf(dirs, name), key, nonce + 1);
        SaveLeavesEntries(bundle, old(dirs)[name], DirOf(dirs, name), key, nonce + 1);
        h := SaveCertBundle(bundle, nonce + 1);
      }
      found := true;
    }
  }

  lemma ReadFacts(name: string, d: Dir)
    requires Read(name, d).Some?
    ensures SameEntries(d, d) && SameEntries(d, Healed(d))
    ensures d.meta.Meta? && Healed(d).files == d.files && Read(name, d).value.files == d.files
    ensures Read(name, d).value.name == name
  {}

  lemma ContainersAdd(files: Files, cert: File, privkey: File, pw: string, salts: Salts)
    ensures files.Keys <= WithContainers(files, cert, privkey, pw, salts).Keys
  {}

  function Effective(password: string): string { if password == "" then DEFAULT_PASSWORD else password }

  // ---------------------------------------------------------------- what the steps do, in plain terms

  /** The password of a directory: the sealed one if there is an entry for it - and none at all if that does not
      open - else the plain one, else "ddns". */
  lemma ResolvesTo(m: Meta, key: Key)
    ensures "pfx_password_enc" in m && m["pfx_password_enc"].Ct? ==>
              Resolve(m, key) == Decrypt(key, PfxPasswordAtRest, m["pfx_password_enc"].c)
    ensures "pfx_password_enc" in m && m["pfx_password_enc"].Text? && m["pfx_password_enc"].s != "" ==>
              Resolve(m, key) == None
    ensures ("pfx_password_enc" !in m || m["pfx_password_enc"] == Text("")) ==>
              Resolve(m, key) == Some(if "pfx_password" in m && m["pfx_password"].Text? && m["pfx_password"].s != ""
                                      then m["pfx_password"].s else "ddns")
  {}

  /** The migration changes the two password entries of the directories with a plain one, and nothing else. */
  lemma MigrationTouchesOnly(d: Dir, key: Key, nonce: nat)
    ensures var d' := MigratedDir(d, key, nonce);
            d'.files == d.files
            && if d.meta.Meta? && "pfx_password" in d.meta.m && d.meta.m["pfx_password"].Text?
                  && d.meta.m["pfx_password"].s != ""
               then d'.meta.Meta? && "pfx_password" in d'.meta.m && d'.meta.m["pfx_password"] == Text("")
                    && Resolve(d'.meta.m, key) == Some(d.meta.m["pfx_password"].s)
                    && d'.meta.m.Keys == d.meta.m.Keys + {"pfx_password_enc"}
                    && forall k :: k in d.meta.m && k != "pfx_password" && k != "pfx_password_enc" ==>
                         d'.meta.m[k] == d.meta.m[k]
               else d' == d
  {}

  /** Containers are generated from this certificate and key where that is possible, both or neither; every
      other file stays. */
  lemma ContainersAre(files: Files, cert: File, privkey: File, pw: string, salts: Salts)
    ensures var files' := WithContainers(files, cert, privkey, pw, salts);
            (forall n :: n != "cert.pfx" && n != "cert-modern.pfx" ==>
               (n in files' <==> n in files) && (n in files ==> files'[n] == files[n]))
            && if CertsOf(cert) != [] && StartsWithKey(privkey)
               then "cert.pfx" in files' && "cert-modern.pfx" in files'
                    && OpenPfx(files'["cert.pfx"], pw) == Some(CertsOf(cert))
                    && OpenPfx(files'["cert-modern.pfx"], pw) == Some(CertsOf(cert))
               else files' == files
  {}

  /** A renewal uses the directory's own password unless that is the default one; then the one of the bundle
      directory, if that has metadata.  A failure on the way is a failure. */
  lemma RenewalPasswordIs(dirs: Dirs, base: string, key: Key)
    ensures var own := if base in dirs && dirs[base].meta.Meta? then Resolve(dirs[base].meta.m, key) else Some("ddns");
            var bundle := BundleName(base);
            RenewalPassword(dirs, base, key) ==
              if own == Some("ddns") && bundle in dirs && dirs[bundle].meta.Meta?
              then Resolve(dirs[bundle].meta.m, key) else own
  {
    assert Resolve(map[], key) == Some("ddns");
  }

  /** A renewal adds the hash and the date to the metadata it finds and leaves the other entries. */
  lemma RenewalTouchesOnly(dirs: Dirs, base: string, source: Option<(File, File)>, salts: Salts, now: nat, key: Key)
    ensures var d, d' := DirOf(dirs, base), Renewed(dirs, base, source, salts, now, key);
            d'.meta.Meta? && "hash" in d'.meta.m && d'.meta.m["hash"] == Digest(HashOf(d'.files))
            && "issued" in d'.meta.m && d'.meta.m["issued"] == Json(now)
            && forall k :: k != "hash" && k != "issued" ==>
                 (k in d'.meta.m <==> d.meta.Meta? && k in d.meta.m)
                 && (d.meta.Meta? && k in d.meta.m ==> d'.meta.m[k] == d.meta.m[k])
    ensures source.None? || RenewalPassword(dirs, base, key).None? ==>
              Renewed(dirs, base, source, salts, now, key).files == DirOf(dirs, base).files
  {
    hide HashOf, Resolve, WithContainers;
  }

  /** Correcting a stale hash changes that entry only. */
  lemma HealingTouchesOnly(d: Dir)
    requires d.meta.Meta?
    ensures var d' := Healed(d);
            d'.files == d.files && d'.meta.Meta?
            && (forall k :: k != "hash" ==>
                  (k in d'.meta.m <==> k in d.meta.m) && (k in d.meta.m ==> d'.meta.m[k] == d.meta.m[k]))
            && HashAt(d'.meta.m) == HashOf(d.files)
  {
    hide HashOf;
  }

  /** A new password of the administrator; a blank one means "ddns". */
  lemma BlankMeansDefault(password: string)
    ensures Effective(password) == if password == "" then "ddns" else password
  {}
}
