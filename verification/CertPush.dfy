/** Certificate push: what a heartbeat reports about deployed certificates, what the response carries, and
    what the agent does with it. */
module CertPush {

  import opened Prelude
  import opened Crypto
  import opened Bundles
  import Names
  import ConfigRender

  // ---------------------------------------------------------------- the agent's directories

  /** A directory of the agent, by its segments below the certificate path, or somewhere else. */
  datatype Place = Under(rel: seq<string>) | Outside(path: string)

  /** The content of a .cert_hash file: a hash, or the sentinel left by a failed binding. */
  datatype Mark = Deployed(h: Hash) | Pending

  datatype AgentDir = AgentDir(files: Files, mark: Option<Mark>)

  type AgentDirs = map<Place, AgentDir>

  const MAX_DEPTH := 5

  predicate Walked(p: Place) { p.Under? && |p.rel| <= MAX_DEPTH }

  predicate Hidden(name: string) { name != "" && name[0] == '.' }

  predicate IsCertFile(name: string) {
    |name| >= 4 && ConfigRender.LowerAll(name[|name| - 4..]) in {".pem", ".crt", ".cer", ".key", ".pfx"}
  }

  function CertFiles(files: Files): Files { map n | n in files && IsCertFile(n) :: files[n] }

  function NoMeta(files: Files): Files { map n | n in files && n != "meta.json" :: files[n] }

  /** The line of a heartbeat about one directory: its mark, else the hash of what is found there - in the
      certificate path itself of the certificate files, in a visible directory right below of all files. */
  ghost function Line(p: Place, d: AgentDir): Option<Mark> {
    if !Walked(p) then None
    else if d.mark.Some? then d.mark
    else if p.rel == [] then
      if CertFiles(d.files) == map[] then None else Some(Deployed(HashOf(CertFiles(d.files))))
    else if |p.rel| == 1 && !Hidden(p.rel[0]) then
      if NoMeta(d.files) == map[] then None else Some(Deployed(HashOf(NoMeta(d.files))))
    else None
  }

  type Report = map<Place, Mark>

  ghost function ReportOf(dirs: AgentDirs): Report {
    map p | p in dirs && Line(p, dirs[p]).Some? :: Line(p, dirs[p]).value
  }

  /** collectCertHashes: the marks, then the certificate path itself, then the directories below without a
      mark; an entry already made is never replaced. */
  method CollectCertHashes(dirs: AgentDirs) returns (result: Report)
    ensures result == ReportOf(dirs)
  {
    hide Names.Sorted, HashOf, IsCertFile;
    result := map[];
    var todo := dirs.Keys;
    while todo != {}
      invariant todo <= dirs.Keys
      invariant result == map p | p in dirs && p !in todo && Walked(p) && dirs[p].mark.Some? :: dirs[p].mark.value
    {
      HasMember(todo);
      var p :| p in todo;
      if Walked(p) && dirs[p].mark.Some? { result := result[p := dirs[p].mark.value]; }
      todo := todo - {p};
    }
    var root := Under([]);
    if root in dirs {
      var h := HashUnlessEmpty(CertFiles(dirs[root].files));
      if h.Some? && root !in result { result := result[root := Deployed(h.value)]; }
    }
    todo := dirs.Keys;
    while todo != {}
      invariant todo <= dirs.Keys
      invariant forall p :: p in result ==> p in dirs && Line(p, dirs[p]) == Some(result[p])
      invariant forall p :: p in dirs && Line(p, dirs[p]).Some? && p !in result ==>
                  p in todo && p.rel != [] && dirs[p].mark.None?
    {
      HasMember(todo);
      var p :| p in todo;
      if p.Under? && |p.rel| == 1 && !Hidden(p.rel[0]) && dirs[p].mark.None? {
        var h := HashUnlessEmpty(NoMeta(dirs[p].files));
        if h.Some? { result := result[p := Deployed(h.value)]; }
      }
      todo := todo - {p};
    }
    assert result.Keys == ReportOf(dirs).Keys;
  }

  method HashUnlessEmpty(files: Files) returns (h: Option<Hash>)
    ensures h == if files == map[] then None else Some(HashOf(files))
  {
    if files == map[] { return None; }
    var computed := ComputeBundleHash(files);
    h := Some(computed);
  }

  // ---------------------------------------------------------------- the manager's side

  /** Where the agent will put a bundle: a legal directory, or a path it rejects. */
  datatype Target = Legal(place: Place) | Illegal

  /** reportKey: the directory under which an explicit deploy path is expected in a report. */
  datatype Binding = Binding(bundle: string, target: Target, reportKey: Option<Place>)

  /** A bundle as loaded and refreshed for a heartbeat; password is None if it cannot be resolved. */
  datatype Loaded = Loaded(files: Files, hash: Hash, password: Option<string>)

  datatype CertUpdate = CertUpdate(hash: Hash, bundle: string, files: map<string, Cipher<File>>,
                                   target: Target, password: string)

  /** What one heartbeat works with; store lacks bundles that cannot be loaded, lost names files whose
      encryption fails. */
  datatype Env = Env(store: map<string, Loaded>, report: Report, lost: set<string>, key: Key, nonce: nat)

  predicate Reported(report: Report, h: Hash) { exists p :: p in report && report[p] == Deployed(h) }

  function Carried(l: Loaded, env: Env): map<string, Cipher<File>> {
    map n | n in l.files && n !in env.lost :: Encrypt(env.key, CertTransport, env.nonce, l.files[n])
  }

  /** The bundle could be loaded, its password resolved, and some file of it encrypted. */
  predicate Pushable(env: Env, bundle: string) {
    bundle in env.store && env.store[bundle].password.Some? && Carried(env.store[bundle], env) != map[]
  }

  predicate Included(env: Env, bundle: string, force: set<string>) {
    Pushable(env, bundle) && (!Reported(env.report, env.store[bundle].hash) || bundle in force)
  }

  function UpdateFor(env: Env, b: Binding): CertUpdate
    requires Pushable(env, b.bundle)
  {
    var l := env.store[b.bundle];
    CertUpdate(l.hash, b.bundle, Carried(l, env), b.target, l.password.value)
  }

  /** The updates of a response and the force flags left. */
  function Push(env: Env, bs: seq<Binding>, force: set<string>): (seq<CertUpdate>, set<string>) {
    if bs == [] then ([], force)
    else
      var (us, f) := Push(env, bs[..|bs| - 1], force);
      var b := bs[|bs| - 1];
      if Included(env, b.bundle, f) then (us + [UpdateFor(env, b)], f - {b.bundle}) else (us, f)
  }

  class NodeRecord {
    var bindings: seq<Binding>
    var force: set<string>

    /** The certificate part of handleHeartbeat. */
    method CertUpdates(env: Env) returns (updates: seq<CertUpdate>)
      modifies this`force
      ensures (updates, force) == Push(env, bindings, old(force))
    {
      hide Carried;
      updates := [];
      var i := 0;
      while i < |bindings|
        invariant 0 <= i <= |bindings|
        invariant (updates, force) == Push(env, bindings[..i], old(force))
      {
        var b := bindings[i];
        assert bindings[..i + 1][..i] == bindings[..i];
        if b.bundle in env.store {
          var l := env.store[b.bundle];
          var matched := Matches(env.report, b.reportKey, l.hash);
          if !(matched && b.bundle !in force) && l.password.Some? {
            var carried := Carried(l, env);
            if carried != map[] {
              updates := updates + [CertUpdate(l.hash, b.bundle, carried, b.target, l.password.value)];
              force := force - {b.bundle};
            }
          }
        }
        i := i + 1;
      }
      assert bindings[..i] == bindings;
    }

    /** The directory expected is looked up first, then every value; the second search decides. */
    method Matches(report: Report, expected: Option<Place>, h: Hash) returns (matched: bool)
      ensures matched <==> Reported(report, h)
    {
      if expected.Some? && expected.value in report && report[expected.value] == Deployed(h) { return true; }
      var todo := report.Keys;
      while todo != {}
        invariant todo <= report.Keys
        invariant forall p :: p in report && p !in todo ==> report[p] != Deployed(h)
      {
        HasMember(todo);
        var p :| p in todo;
        if report[p] == Deployed(h) { return true; }
        todo := todo - {p};
      }
      matched := false;
    }

    /** handleForcePushCert */
    method ForcePush(bundle: string)
      modifies this`force
      ensures force == old(force) + {bundle}
    {
      force := force + {bundle};
    }
  }

  // ---------------------------------------------------------------- the agent's side

  /** How the deployment of one update goes: files that cannot be written, and whether binding succeeds. */
  datatype Outcome = Outcome(failed: set<string>, bound: bool)

  /** The files that decrypt and get written. */
  function Landed(u: CertUpdate, key: Key, failed: set<string>): Files {
    map n | n in u.files && n !in failed && Decrypt(key, CertTransport, u.files[n]).Some? ::
      Decrypt(key, CertTransport, u.files[n]).value
  }

  function DirAt(dirs: AgentDirs, p: Place): AgentDir { if p in dirs then dirs[p] else AgentDir(map[], None) }

  /** The mark is written whether or not every file was; it records the binding. */
  function ApplyOne(dirs: AgentDirs, u: CertUpdate, key: Key, o: Outcome): AgentDirs {
    if u.target.Illegal? then dirs
    else
      var p := u.target.place;
      dirs[p := AgentDir(DirAt(dirs, p).files + Landed(u, key, o.failed),
                         Some(if o.bound then Deployed(u.hash) else Pending))]
  }

  function Applied(dirs: AgentDirs, us: seq<CertUpdate>, key: Key, os: seq<Outcome>): AgentDirs
    requires |us| == |os|
  {
    if us == [] then dirs
    else ApplyOne(Applied(dirs, us[..|us| - 1], key, os[..|os| - 1]), us[|us| - 1], key, os[|os| - 1])
  }

  class Agent {
    const key: Key
    var dirs: AgentDirs

    /** applyCertUpdates */
    method ApplyCertUpdates(us: seq<CertUpdate>, os: seq<Outcome>)
      requires |us| == |os|
      modifies this`dirs
      ensures dirs == Applied(old(dirs), us, key, os)
    {
      hide Landed;
      var i := 0;
      while i < |us|
        invariant 0 <= i <= |us|
        invariant dirs == Applied(old(dirs), us[..i], key, os[..i])
      {
        var u, o := us[i], os[i];
        assert us[..i + 1][..i] == us[..i] && os[..i + 1][..i] == os[..i];
        if u.target.Legal? {
          var p := u.target.place;
          var files := WriteFiles(DirAt(dirs, p).files, u, o.failed);
          dirs := dirs[p := AgentDir(files, Some(if o.bound then Deployed(u.hash) else Pending))];
        }
        i := i + 1;
      }
      assert us[..i] == us && os[..i] == os;
    }

    /** The inner loop: a file that does not decrypt or cannot be written is skipped. */
    method WriteFiles(onDisk: Files, u: CertUpdate, failed: set<string>) returns (files: Files)
      ensures files == onDisk + Landed(u, key, failed)
    {
      files := onDisk;
      ghost var done: set<string> := {};
      var todo := u.files.Keys;
      while todo != {}
        invariant todo <= u.files.Keys && done == u.files.Keys - todo
        invariant files == onDisk + map n | n in done && n in Landed(u, key, failed) :: Landed(u, key, failed)[n]
      {
        HasMember(todo);
        var n :| n in todo;
        var plain := Decrypt(key, CertTransport, u.files[n]);
        if plain.Some? && n !in failed { files := files[n := plain.value]; }
        todo := todo - {n};
        done := done + {n};
      }
      assert (map n | n in done && n in Landed(u, key, failed) :: Landed(u, key, failed)[n]) == Landed(u, key, failed);
    }
  }

  // ---------------------------------------------------------------- one response

  predicate HasUpdate(us: seq<CertUpdate>, bundle: string) { exists u :: u in us && u.bundle == bundle }

  predicate IsBound(bs: seq<Binding>, bundle: string) { exists b :: b in bs && b.bundle == bundle }

  /** A bound bundle is in the response exactly if it could be loaded, its password resolved and a file of it
      encrypted, and its hash is not reported or it is forced.  And a force flag is dropped exactly by a
      response with the bundle. */
  lemma {:induction false} InResponseExactly(env: Env, bs: seq<Binding>, force: set<string>, bundle: string)
    ensures HasUpdate(Push(env, bs, force).0, bundle) <==> IsBound(bs, bundle) && Included(env, bundle, force)
    ensures bundle in Push(env, bs, force).1 <==> bundle in force && !HasUpdate(Push(env, bs, force).0, bundle)
  {
    hide Carried, Pushable, Reported;
    if bs != [] {
      var init := bs[..|bs| - 1];
      var b := bs[|bs| - 1];
      InResponseExactly(env, init, force, bundle);
      InResponseExactly(env, init, force, b.bundle);
      assert bs == init + [b];
      assert IsBound(bs, bundle) <==> IsBound(init, bundle) || b.bundle == bundle by { BoundInEither(init, b, bundle); }
      var (us, f) := Push(env, init, force);
      if Included(env, b.bundle, f) { UpdateInEither(us, UpdateFor(env, b), bundle); }
    }
  }

  lemma BoundInEither(bs: seq<Binding>, b: Binding, bundle: string)
    ensures IsBound(bs + [b], bundle) <==> IsBound(bs, bundle) || b.bundle == bundle
  {}

  lemma UpdateInEither(us: seq<CertUpdate>, u: CertUpdate, bundle: string)
    ensures HasUpdate(us + [u], bundle) <==> HasUpdate(us, bundle) || u.bundle == bundle
  {}

  /** Whether binding i gets an update of its own: its bundle can be pushed and is not reported, or it is forced
      and this is its first binding. */
  predicate Served(env: Env, bs: seq<Binding>, force: set<string>, i: nat)
    requires i < |bs|
  {
    var b := bs[i].bundle;
    Pushable(env, b)
    && (!Reported(env.report, env.store[b].hash)
        || (b in force && forall j :: 0 <= j < i ==> bs[j].bundle != b))
  }

  /** The bindings that are served, in order. */
  function ServedBindings(env: Env, bs: seq<Binding>, force: set<string>, n: nat): (r: seq<nat>)
    requires n <= |bs|
    ensures forall k :: 0 <= k < |r| ==> r[k] < n
    ensures forall i, j :: 0 <= i < j < |r| ==> r[i] < r[j]
    ensures forall i: nat :: i in r <==> i < n && Served(env, bs, force, i)
  {
    if n == 0 then []
    else
      var init := ServedBindings(env, bs, force, n - 1);
      if Served(env, bs, force, n - 1) then init + [n - 1] else init
  }

  lemma {:induction false} ServedPrefix(env: Env, bs: seq<Binding>, force: set<string>, n: nat, k: nat)
    requires n <= k <= |bs|
    ensures ServedBindings(env, bs[..k], force, n) == ServedBindings(env, bs, force, n)
  {
    hide Pushable, Reported;
    if n > 0 {
      ServedPrefix(env, bs, force, n - 1, k);
      assert forall j :: 0 <= j < n ==> bs[..k][j] == bs[j];
    }
  }

  /** The response, binding by binding: each binding that is served has one update, in the order of the
      bindings, and there is no other.  Two bindings of one bundle are both served. */
  lemma {:induction false} EveryBindingIsServed(env: Env, bs: seq<Binding>, force: set<string>)
    ensures var us, served := Push(env, bs, force).0, ServedBindings(env, bs, force, |bs|);
            |us| == |served|
            && forall k :: 0 <= k < |us| ==> IsUpdateOf(env, bs[served[k]], us[k])
  {
    hide Pushable, Reported, IsUpdateOf, Carried;
    if bs != [] {
      var n := |bs| - 1;
      var init, b := bs[..n], bs[n];
      EveryBindingIsServed(env, init, force);
      ServedPrefix(env, bs, force, n, n);
      InResponseExactly(env, init, force, b.bundle);
      assert IsBound(init, b.bundle) <==> !(forall j :: 0 <= j < n ==> bs[j].bundle != b.bundle) by {
        BoundExactly(init, b.bundle);
        assert forall j :: 0 <= j < n ==> init[j] == bs[j];
      }
      assert Included(env, b.bundle, Push(env, init, force).1) <==> Served(env, bs, force, n);
      if Served(env, bs, force, n) { UpdateForSays(env, b); }
    }
  }

  lemma BoundExactly(bs: seq<Binding>, bundle: string)
    ensures IsBound(bs, bundle) <==> exists j :: 0 <= j < |bs| && bs[j].bundle == bundle
  {}

  /** An update of a binding: for its bundle and its target, with the bundle's hash and password, and every
      file that could be encrypted, to be opened with the transport key. */
  predicate IsUpdateOf(env: Env, b: Binding, u: CertUpdate) {
    u.bundle == b.bundle && u.target == b.target && b.bundle in env.store
    && u.hash == env.store[b.bundle].hash && Some(u.password) == env.store[b.bundle].password
    && u.files.Keys == env.store[b.bundle].files.Keys - env.lost
    && forall n :: n in u.files ==> Decrypt(env.key, CertTransport, u.files[n]) == Some(env.store[b.bundle].files[n])
  }

  lemma UpdateForSays(env: Env, b: Binding)
    requires Pushable(env, b.bundle)
    ensures IsUpdateOf(env, b, UpdateFor(env, b))
  {}

  /** Every update carries its bundle's hash and password and goes to a target the bundle is bound to. */
  lemma {:induction false} UpdatesAreFaithful(env: Env, bs: seq<Binding>, force: set<string>, u: CertUpdate)
    requires u in Push(env, bs, force).0
    ensures Pushable(env, u.bundle) && u.hash == env.store[u.bundle].hash
    ensures u.files == Carried(env.store[u.bundle], env) && Some(u.password) == env.store[u.bundle].password
    ensures exists b :: b in bs && b.bundle == u.bundle && b.target == u.target
  {
    hide Carried, Reported;
    if bs != [] {
      var init := bs[..|bs| - 1];
      var b := bs[|bs| - 1];
      if u in Push(env, init, force).0 {
        UpdatesAreFaithful(env, init, force, u);
        var x :| x in init && x.bundle == u.bundle && x.target == u.target;
        assert x in bs;
      } else {
        assert u == UpdateFor(env, b) && b in bs;
      }
    }
  }

  /** With encryption succeeding, the hash an update announces is the hash of the files the agent will
      decrypt, whatever order it handles them in. */
  lemma HashIsOfCarriedFiles(env: Env, bs: seq<Binding>, force: set<string>, u: CertUpdate)
    requires u in Push(env, bs, force).0 && env.lost == {}
    requires u.bundle in env.store ==> env.store[u.bundle].hash == HashOf(env.store[u.bundle].files)
    ensures u.bundle in env.store
    ensures Landed(u, env.key, {}) == env.store[u.bundle].files && u.hash == HashOf(Landed(u, env.key, {}))
  {}

  /** An agent with another password or fingerprint can read none of the files. */
  lemma WrongKeyReadsNothing(env: Env, bs: seq<Binding>, force: set<string>, u: CertUpdate, key: Key,
                             failed: set<string>)
    requires u in Push(env, bs, force).0 && key != env.key
    ensures Landed(u, key, failed) == map[]
  {}

  // ---------------------------------------------------------------- what is reported, in plain terms

  /** The line about a directory: a mark counts anywhere down to five levels below the certificate path; without
      one the certificate path speaks for its certificate files, and a visible directory right below it for all
      its files but meta.json. */
  lemma ReportedExactly(p: Place, d: AgentDir)
    ensures p.Outside? || |p.rel| > 5 ==> Line(p, d) == None
    ensures p.Under? && |p.rel| <= 5 && d.mark.Some? ==> Line(p, d) == d.mark
    ensures p == Under([]) && d.mark.None? ==>
              Line(p, d) == if exists n :: n in d.files && IsCertFile(n)
                            then Some(Deployed(HashOf(CertFiles(d.files)))) else None
    ensures p.Under? && |p.rel| == 1 && d.mark.None? ==>
              Line(p, d) == if (p.rel[0] == "" || p.rel[0][0] != '.') && exists n :: n in d.files && n != "meta.json"
                            then Some(Deployed(HashOf(NoMeta(d.files)))) else None
    ensures p.Under? && |p.rel| > 1 && d.mark.None? ==> Line(p, d) == None
  {
    hide IsCertFile;
    assert CertFiles(d.files) == map[] <==> !exists n :: n in d.files && IsCertFile(n) by {
      if n :| n in d.files && IsCertFile(n) { assert n in CertFiles(d.files); }
    }
    assert NoMeta(d.files) == map[] <==> !exists n :: n in d.files && n != "meta.json" by {
      if n :| n in d.files && n != "meta.json" { assert n in NoMeta(d.files); }
    }
  }

  /** What counts as a certificate file, whatever the case of the letters. */
  lemma CertFileExactly(stem: string, ext: string)
    requires |ext| == 4
    ensures IsCertFile(stem + ext) <==> ConfigRender.LowerAll(ext) in {".pem", ".crt", ".cer", ".key", ".pfx"}
    ensures |stem| < 4 ==> !IsCertFile(stem)
  {
    assert (stem + ext)[|stem + ext| - 4..] == ext;
  }

  /** An update goes into its own directory only, and there leaves the files it does not bring. */
  lemma UpdateTouchesOnly(dirs: AgentDirs, u: CertUpdate, key: Key, o: Outcome)
    ensures var dirs' := ApplyOne(dirs, u, key, o);
            (u.target.Illegal? ==> dirs' == dirs)
            && (u.target.Legal? ==>
                  var p := u.target.place;
                  dirs'.Keys == dirs.Keys + {p}
                  && (forall q :: q in dirs && q != p ==> dirs'[q] == dirs[q])
                  && (dirs'[p].mark == Some(Deployed(u.hash)) <==> o.bound)
                  && (dirs'[p].mark == Some(Pending) <==> !o.bound)
                  && forall n :: n !in u.files || n in o.failed ==>
                       (n in dirs'[p].files <==> p in dirs && n in dirs[p].files)
                       && (p in dirs && n in dirs[p].files ==> dirs'[p].files[n] == dirs[p].files[n]))
  {}
}
