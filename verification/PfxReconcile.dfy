/** Any number of heartbeats bringing one bundle's PFX containers up to date at the same time. */
module PfxReconcile {

  import opened Prelude
  import opened Crypto
  import opened Bundles
  import opened BundleStore
  import opened PfxCheck
  import BundleHistory

  // ---------------------------------------------------------------- the processes

  /** Where a heartbeat stands in ensureBundlePFXFresh; from Inside to Rebuilding it holds the lock. */
  datatype Pc = Loaded | HasMeta | Waiting | Inside | Reloaded | Rebuilding | Done

  /** b is the bundle the heartbeat will use, m the metadata it read before taking the lock. */
  datatype Proc = Proc(pc: Pc, b: Bundle, m: Meta)

  /** One bundle directory; pemWrites counts writes from outside, rebuilds the successful rebuilds. */
  datatype World = World(key: Key, name: string, disk: Dir, lock: Option<nat>, procs: map<nat, Proc>,
                         pemWrites: nat, rebuilds: nat, salt: nat)

  datatype Event =
    | Load(p: nat, writeOk: bool)
    | LoadMeta(p: nat)
    | PreCheck(p: nat)
    | Acquire(p: nat)
    | Reload(p: nat, writeOk: bool)
    | Recheck(p: nat)
    | Rebuild(p: nat)
    | PemWrite(files: Files)

  const PEM_FILES: set<string> := {"fullchain.pem", "cert.pem", "privkey.pem"}

  predicate At(w: World, p: nat, pc: Pc) { p in w.procs && w.procs[p].pc == pc }

  predicate IsAcme(m: Meta) { "acme" in m && m["acme"] == Json(1) }

  function Put(w: World, p: nat, proc: Proc): World { w.(procs := w.procs[p := proc]) }

  function Leave(w: World, p: nat, b: Bundle): World
    requires p in w.procs
  {
    Put(w, p, w.procs[p].(pc := Done, b := b)).(lock := None)
  }

  function Verdict(w: World, p: nat): PfxCheck.Verdict
    requires p in w.procs
  {
    Check(w.procs[p].b.files, w.procs[p].b.password, w.procs[p].m, w.key)
  }

  ghost function HealDisk(w: World, writeOk: bool): World
    requires w.disk.meta.Meta?
  {
    if writeOk then w.(disk := Healed(w.disk)) else w
  }

  ghost function LoadStep(w: World, p: nat, writeOk: bool): World {
    var b := Read(w.name, w.disk);
    if p in w.procs || b.None? then w
    else Put(HealDisk(w, writeOk), p, Proc(Loaded, b.value, map[]))
  }

  function LoadMetaStep(w: World, p: nat): World {
    if !At(w, p, Loaded) then w
    else if !w.disk.meta.Meta? || !IsAcme(w.disk.meta.m) then Put(w, p, w.procs[p].(pc := Done))
    else Put(w, p, w.procs[p].(pc := HasMeta, m := w.disk.meta.m))
  }

  function PreCheckStep(w: World, p: nat): World {
    if !At(w, p, HasMeta) then w
    else Put(w, p, w.procs[p].(pc := if Verdict(w, p) == NeedsRebuild then Waiting else Done))
  }

  function AcquireStep(w: World, p: nat): World {
    if !At(w, p, Waiting) || w.lock.Some? then w
    else Put(w, p, w.procs[p].(pc := Inside)).(lock := Some(p))
  }

  ghost function ReloadStep(w: World, p: nat, writeOk: bool): World {
    if !At(w, p, Inside) then w
    else
      match Read(w.name, w.disk)
      case None => Leave(w, p, w.procs[p].b)
      case Some(b2) => Put(HealDisk(w, writeOk), p, w.procs[p].(pc := Reloaded, b := b2))
  }

  function RecheckStep(w: World, p: nat): World {
    if !At(w, p, Reloaded) then w
    else if Verdict(w, p) == NeedsRebuild then Put(w, p, w.procs[p].(pc := Rebuilding))
    else Leave(w, p, w.procs[p].b)
  }

  ghost function RebuildStep(w: World, p: nat): World {
    if !At(w, p, Rebuilding) then w
    else
      var proc := w.procs[p];
      match Rebuilt(proc.b, proc.m, w.key, Salts(w.salt, w.salt + 1))
      case None => Leave(w, p, proc.b)
      case Some(b) =>
        Leave(w, p, b.(hash := HashOf(b.files)))
          .(disk := Saved(b, w.disk, w.key, w.salt), rebuilds := w.rebuilds + 1, salt := w.salt + 2)
  }

  /** acme.sh, or an administrator, replaces PEM files; never during a critical section. */
  function PemWriteStep(w: World, files: Files): World {
    if w.lock.Some? || !(files.Keys <= PEM_FILES) then w
    else w.(disk := w.disk.(files := w.disk.files + files), pemWrites := w.pemWrites + 1)
  }

  ghost function Step(w: World, e: Event): World {
    match e
    case Load(p, writeOk) => LoadStep(w, p, writeOk)
    case LoadMeta(p) => LoadMetaStep(w, p)
    case PreCheck(p) => PreCheckStep(w, p)
    case Acquire(p) => AcquireStep(w, p)
    case Reload(p, writeOk) => ReloadStep(w, p, writeOk)
    case Recheck(p) => RecheckStep(w, p)
    case Rebuild(p) => RebuildStep(w, p)
    case PemWrite(files) => PemWriteStep(w, files)
  }

  ghost function Run(w: World, es: seq<Event>): World {
    if es == [] then w else Step(Run(w, es[..|es| - 1]), es[|es| - 1])
  }

  /** Nobody is at work yet; the directory may hold anything. */
  predicate Initial(w: World) {
    w.lock.None? && w.procs == map[] && w.pemWrites == 0 && w.rebuilds == 0
  }

  // ---------------------------------------------------------------- which passwords are about

  /** The password of a rebuild under this metadata: the first candidate. */
  function Settled(m: Meta, key: Key): string
    requires Resolve(m, key).Some?
  {
    if TextAt(m, "pfx_password") != "" then TextAt(m, "pfx_password")
    else if Resolve(m, key).value != "" then Resolve(m, key).value else DEFAULT_PASSWORD
  }

  /** As far as passwords go, the same as the metadata everything began with. */
  predicate Like(m: Meta, m0: Meta, key: Key) {
    TextAt(m, "pfx_password") == TextAt(m0, "pfx_password") && Resolve(m, key) == Resolve(m0, key)
  }

  /** Written by a rebuild: the settled password, sealed, and no other. */
  predicate SealedFor(m: Meta, m0: Meta, key: Key) {
    Resolve(m0, key).Some? && TextAt(m, "pfx_password") == "" && Resolve(m, key) == Some(Settled(m0, key))
  }

  predicate MetaOk(m: Meta, m0: Meta, key: Key, rebuilt: bool) {
    Like(m, m0, key) || (rebuilt && SealedFor(m, m0, key))
  }

  predicate PasswordOk(pw: string, m0: Meta, key: Key, rebuilt: bool) {
    pw == TextAt(m0, "pfx_password")
    || (rebuilt && Resolve(m0, key).Some? && (pw == "" || pw == Settled(m0, key)))
  }

  /** Before the first rebuild the disk is as it was; after it both containers and the metadata have the
      settled password, whether the metadata held one password before, two different ones, or none. */
  ghost predicate DiskOk(w: World, m0: Meta) {
    w.disk.meta.Meta?
    && if w.rebuilds == 0 then Like(w.disk.meta.m, m0, w.key)
       else SealedFor(w.disk.meta.m, m0, w.key)
            && BundleHistory.OpensWith(w.disk.files, Settled(m0, w.key))
  }

  /** Whichever bundle and metadata a heartbeat has in hand, the settled password comes first. */
  lemma SettledComesFirst(password: string, m: Meta, m0: Meta, key: Key, rebuilt: bool)
    requires MetaOk(m, m0, key, rebuilt) && PasswordOk(password, m0, key, rebuilt) && Resolve(m, key).Some?
    ensures Resolve(m0, key).Some? && Candidates(password, m, key).Some?
    ensures Candidates(password, m, key).value != []
    ensures Candidates(password, m, key).value[0] == Settled(m0, key)
  {
    hide Candidates, Resolve;
    FirstCandidate(password, m, key);
    assert DEFAULT_PASSWORD != "";
  }

  lemma SameCandidates(password: string, m: Meta, m': Meta, key: Key)
    requires Like(m, m', key)
    ensures Candidates(password, m, key) == Candidates(password, m', key)
  {}

  lemma SameContainer(f: File, leaf: nat, pw: string, pws: seq<string>, pws': seq<string>)
    requires pw in pws && pw in pws' && OpenPfx(f, pw).Some?
    ensures CheckContainer(f, leaf, pws) == CheckContainer(f, leaf, pws')
  {
    hide OpenPfx;
    OpensAlike(f, pws);
    OpensAlike(f, pws');
  }

  /** Bundles and metadata may be stale, and may offer different passwords: the verdict is always the one
      on the disk as it is. */
  lemma VerdictAlike(w: World, m0: Meta, password: string, m: Meta)
    requires DiskOk(w, m0) && MetaOk(m, m0, w.key, w.rebuilds > 0)
    requires PasswordOk(password, m0, w.key, w.rebuilds > 0)
    ensures Check(w.disk.files, password, m, w.key) == DiskVerdict(w)
  {
    hide Candidates, CheckContainer, Resolve, OpenPfx;
    var text := TextAt(w.disk.meta.m, "pfx_password");
    if w.rebuilds == 0 {
      SameCandidates(password, m, w.disk.meta.m, w.key);
    } else {
      var pw := Settled(m0, w.key);
      SettledComesFirst(password, m, m0, w.key, true);
      SettledComesFirst(text, w.disk.meta.m, m0, w.key, true);
      var pws, pws' := Candidates(password, m, w.key).value, Candidates(text, w.disk.meta.m, w.key).value;
      if Authoritative(w.disk.files).Some? {
        var leaf := Authoritative(w.disk.files).value;
        assert {"cert.pfx", "cert-modern.pfx"} <= w.disk.files.Keys;
        SameContainer(w.disk.files["cert.pfx"], leaf, pw, pws, pws');
        SameContainer(w.disk.files["cert-modern.pfx"], leaf, pw, pws, pws');
      }
    }
  }

  /** The verdict on the files on disk, under the metadata on disk. */
  function DiskVerdict(w: World): PfxCheck.Verdict
    requires w.disk.meta.Meta?
  {
    Check(w.disk.files, TextAt(w.disk.meta.m, "pfx_password"), w.disk.meta.m, w.key)
  }

  // ---------------------------------------------------------------- what every step keeps

  /** The target path, expiry and domains that a bundle loaded from this metadata has. */
  function FieldsIn(m: Meta): Option<(string, int, seq<string>)> {
    if !WellTyped(m) then None
    else Some((TextAt(m, "target_path"), if "expires_at" in m then m["expires_at"].t else 0,
               if "domains" in m then m["domains"].items else []))
  }

  function FieldsOf(b: Bundle): (string, int, seq<string>) { (b.targetPath, b.expiresAt, b.domains) }

  predicate Critical(pc: Pc) { pc == Inside || pc == Reloaded || pc == Rebuilding }

  /** A process inside is the one the lock names; its bundle carries its own hash. */
  ghost predicate ProcOk(w: World, p: nat, m0: Meta) {
    p in w.procs ==>
      var proc := w.procs[p];
      proc.b.hash == HashOf(proc.b.files) && proc.b.name == w.name
      && PasswordOk(proc.b.password, m0, w.key, w.rebuilds > 0)
      && (proc.pc == HasMeta || proc.pc == Waiting || Critical(proc.pc) ==>
            MetaOk(proc.m, m0, w.key, w.rebuilds > 0))
      && (Critical(proc.pc) ==> w.lock == Some(p))
      && (proc.pc == Reloaded || proc.pc == Rebuilding ==>
            proc.b.files == w.disk.files && w.disk.meta.Meta? && FieldsIn(w.disk.meta.m) == Some(FieldsOf(proc.b)))
      && (proc.pc == Rebuilding ==> w.disk.meta.Meta? && DiskVerdict(w) == NeedsRebuild)
  }

  /** Each rebuild but one is paid for by a write from outside, and when a rebuild is needed, all are. */
  ghost predicate CountOk(w: World) {
    w.disk.meta.Meta? && w.rebuilds <= w.pemWrites + 1
    && (DiskVerdict(w) == NeedsRebuild ==> w.rebuilds <= w.pemWrites)
  }

  lemma ReadFacts(w: World, m0: Meta, writeOk: bool)
    requires DiskOk(w, m0)
    ensures var r := Read(w.name, w.disk);
            r.Some? ==> r.value.name == w.name && r.value.files == w.disk.files
                        && r.value.hash == HashOf(r.value.files)
                        && PasswordOk(r.value.password, m0, w.key, w.rebuilds > 0)
                        && FieldsIn(w.disk.meta.m) == Some(FieldsOf(r.value))
    ensures var w' := HealDisk(w, writeOk);
            DiskOk(w', m0) && w' == w.(disk := w'.disk) && w'.disk.files == w.disk.files
            && DiskVerdict(w') == DiskVerdict(w)
            && (Read(w.name, w.disk).Some? ==> FieldsIn(w'.disk.meta.m) == FieldsIn(w.disk.meta.m))
  {
    hide Check, HashOf, Candidates;
    var w' := HealDisk(w, writeOk);
    assert Like(w'.disk.meta.m, w.disk.meta.m, w.key);
    VerdictAlike(w, m0, TextAt(w'.disk.meta.m, "pfx_password"), w'.disk.meta.m);
  }

  /** Steps that leave files, lock holders and verdicts alone. */
  lemma QuietStepKeeps(w: World, e: Event, m0: Meta, q: nat)
    requires DiskOk(w, m0) && ProcOk(w, q, m0) && CountOk(w)
    requires e.Load? || e.LoadMeta? || e.PreCheck?
    ensures DiskOk(Step(w, e), m0) && ProcOk(Step(w, e), q, m0) && CountOk(Step(w, e))
  {
    hide Check, HashOf, Read, Like, SealedFor, PasswordOk, HealDisk, FieldsIn;
    if e.Load? { ReadFacts(w, m0, e.writeOk); }
  }

  lemma AcquireKeeps(w: World, e: Event, m0: Meta, q: nat)
    requires DiskOk(w, m0) && ProcOk(w, q, m0) && CountOk(w) && e.Acquire?
    ensures DiskOk(Step(w, e), m0) && ProcOk(Step(w, e), q, m0) && CountOk(Step(w, e))
  {
    hide Check, HashOf, Like, SealedFor, PasswordOk, FieldsIn;
  }

  lemma InsideStepKeeps(w: World, e: Event, m0: Meta, q: nat)
    requires DiskOk(w, m0) && ProcOk(w, q, m0) && CountOk(w)
    requires (e.Reload? || e.Recheck?) && ProcOk(w, e.p, m0)
    ensures DiskOk(Step(w, e), m0) && ProcOk(Step(w, e), q, m0) && CountOk(Step(w, e))
  {
    hide Check, HashOf, Read, Like, SealedFor, PasswordOk, HealDisk, FieldsIn;
    if e.Reload? { ReadFacts(w, m0, e.writeOk); }
    if e.Recheck? && At(w, e.p, Reloaded) {
      VerdictAlike(w, m0, w.procs[e.p].b.password, w.procs[e.p].m);
    }
  }

  lemma PemWriteKeeps(w: World, e: Event, m0: Meta, q: nat)
    requires DiskOk(w, m0) && ProcOk(w, q, m0) && CountOk(w) && e.PemWrite?
    ensures DiskOk(Step(w, e), m0) && ProcOk(Step(w, e), q, m0) && CountOk(Step(w, e))
  {
    hide Check, HashOf, Like, SealedFor, PasswordOk, OpenPfx, FieldsIn;
  }

  /** What a successful rebuild leaves on disk. */
  lemma RebuiltDisk(w: World, p: nat, m0: Meta)
    requires DiskOk(w, m0) && ProcOk(w, p, m0) && At(w, p, Rebuilding)
    requires Rebuilt(w.procs[p].b, w.procs[p].m, w.key, Salts(w.salt, w.salt + 1)).Some?
    ensures var w' := RebuildStep(w, p);
            DiskOk(w', m0) && DiskVerdict(w') == Consistent && Read(w.name, w'.disk).Some?
            && w'.procs[p].b.files == w'.disk.files && w'.procs[p].b.name == w.name
            && PasswordOk(w'.procs[p].b.password, m0, w.key, true)
            && OnlyRebuilt(w.disk.files, w'.disk.files)
            && FieldsIn(w'.disk.meta.m) == FieldsIn(w.disk.meta.m) == Some(FieldsOf(w'.procs[p].b))
  {
    hide Check, HashOf, Rebuilt, Like, Resolve, Saved, WellTyped, Candidates, OnlyRebuilt, FieldsIn;
    var proc := w.procs[p];
    RebuiltOnDisk(proc.b, proc.m, w.disk, w.key, Salts(w.salt, w.salt + 1), w.salt, m0, w.rebuilds > 0);
  }

  lemma SavedFields(b: Bundle, d: Dir, key: Key, nonce: nat)
    ensures Saved(b, d, key, nonce).meta.Meta? && FieldsIn(Saved(b, d, key, nonce).meta.m) == Some(FieldsOf(b))
  {
    hide HashOf;
    SavedIsWellTyped(b, d, key, nonce);
    BundleHistory.ManagedComeFromTheBundle(b, d, key, nonce);
    assert {"target_path", "expires_at", "domains"} <= MANAGED;
  }

  lemma SavedIsWellTyped(b: Bundle, d: Dir, key: Key, nonce: nat)
    ensures Saved(b, d, key, nonce).meta.Meta? && WellTyped(Saved(b, d, key, nonce).meta.m)
  {
    hide HashOf;
    var s := Saved(b, d, key, nonce);
    BundleHistory.ManagedComeFromTheBundle(b, d, key, nonce);
    assert {"name", "target_path", "expires_at", "domains", "hash", "pfx_password"} <= MANAGED;
  }

  /** What was right about another process stays right when the first password is settled. */
  lemma RebuiltOnly(pw: string, m: Meta, m0: Meta, key: Key, rebuilt: bool)
    ensures PasswordOk(pw, m0, key, rebuilt) ==> PasswordOk(pw, m0, key, true)
    ensures MetaOk(m, m0, key, rebuilt) ==> MetaOk(m, m0, key, true)
  {}

  lemma RebuildKeeps(w: World, e: Event, m0: Meta, q: nat)
    requires DiskOk(w, m0) && ProcOk(w, q, m0) && CountOk(w) && e.Rebuild? && ProcOk(w, e.p, m0)
    ensures DiskOk(Step(w, e), m0) && ProcOk(Step(w, e), q, m0) && CountOk(Step(w, e))
  {
    hide Check, HashOf, Rebuilt, Like, SealedFor, OpenPfx, MetaOk, PasswordOk, Saved, FieldsIn;
    if At(w, e.p, Rebuilding) && Rebuilt(w.procs[e.p].b, w.procs[e.p].m, w.key, Salts(w.salt, w.salt + 1)).Some? {
      RebuiltDisk(w, e.p, m0);
      if q in w.procs { RebuiltOnly(w.procs[q].b.password, w.procs[q].m, m0, w.key, w.rebuilds > 0); }
    }
  }

  lemma StepKeeps(w: World, e: Event, m0: Meta, q: nat)
    requires DiskOk(w, m0) && ProcOk(w, q, m0) && CountOk(w) && (!e.PemWrite? ==> ProcOk(w, e.p, m0))
    ensures DiskOk(Step(w, e), m0) && ProcOk(Step(w, e), q, m0) && CountOk(Step(w, e))
  {
    hide DiskOk, ProcOk, CountOk, Step;
    match e
    case Load(_, _) => QuietStepKeeps(w, e, m0, q);
    case LoadMeta(_) => QuietStepKeeps(w, e, m0, q);
    case PreCheck(_) => QuietStepKeeps(w, e, m0, q);
    case Acquire(_) => AcquireKeeps(w, e, m0, q);
    case Reload(_, _) => InsideStepKeeps(w, e, m0, q);
    case Recheck(_) => InsideStepKeeps(w, e, m0, q);
    case Rebuild(_) => RebuildKeeps(w, e, m0, q);
    case PemWrite(_) => PemWriteKeeps(w, e, m0, q);
  }

  lemma {:induction false} RunKeeps(w: World, es: seq<Event>, m0: Meta, q: nat)
    requires Initial(w) && w.disk.meta == MetaFile.Meta(m0)
    ensures DiskOk(Run(w, es), m0) && ProcOk(Run(w, es), q, m0) && CountOk(Run(w, es))
    decreases |es|
  {
    hide DiskOk, CountOk, Step, Check;
    if es == [] {
      InitialCount(w, m0);
    } else {
      var init := es[..|es| - 1];
      var e := es[|es| - 1];
      RunKeeps(w, init, m0, q);
      if !e.PemWrite? { RunKeeps(w, init, m0, e.p); }
      StepKeeps(Run(w, init), e, m0, q);
    }
  }

  lemma InitialCount(w: World, m0: Meta)
    requires Initial(w) && w.disk.meta == MetaFile.Meta(m0)
    ensures DiskOk(w, m0) && CountOk(w)
  {}

  /** Without readable metadata there is no bundle to load. */
  lemma {:induction false} NothingWithoutMetadata(w: World, es: seq<Event>)
    requires Initial(w) && !w.disk.meta.Meta?
    ensures Run(w, es).procs == map[] && Run(w, es).rebuilds == 0 && Run(w, es).disk.meta == w.disk.meta
  {
    if es != [] { NothingWithoutMetadata(w, es[..|es| - 1]); }
  }

  // ---------------------------------------------------------------- main results

  /** Rebuilds of one bundle never overlap: at most one heartbeat is inside. */
  lemma RebuildsAreSerialised(w: World, es: seq<Event>, p: nat, q: nat)
    requires Initial(w)
    requires p in Run(w, es).procs && Critical(Run(w, es).procs[p].pc)
    requires q in Run(w, es).procs && Critical(Run(w, es).procs[q].pc)
    ensures p == q
  {
    hide DiskOk, CountOk, Run;
    if w.disk.meta.Meta? {
      RunKeeps(w, es, w.disk.meta.m, p);
      RunKeeps(w, es, w.disk.meta.m, q);
    } else {
      NothingWithoutMetadata(w, es);
    }
  }

  /** A successful rebuild leaves a bundle that reloads as consistent and is exactly what the heartbeat
      returns, under its own hash; it touches nothing but the containers and cert.pem. */
  lemma RebuildLeavesConsistentBundle(w: World, es: seq<Event>, p: nat)
    requires Initial(w)
    requires Step(Run(w, es), Rebuild(p)).rebuilds > Run(w, es).rebuilds
    ensures var w' := Step(Run(w, es), Rebuild(p));
            p in w'.procs && w'.procs[p].pc == Done
            && w'.disk.meta.Meta?
            && Read(w'.name, w'.disk).Some?
            && Check(w'.disk.files, Read(w'.name, w'.disk).value.password, w'.disk.meta.m, w'.key) == Consistent
            && w'.procs[p].b.files == w'.disk.files && w'.procs[p].b.hash == HashOf(w'.disk.files)
    ensures var v, w' := Run(w, es), Step(Run(w, es), Rebuild(p));
            OnlyRebuilt(v.disk.files, w'.disk.files) && v.disk.meta.Meta?
            && FieldsIn(w'.disk.meta.m) == FieldsIn(v.disk.meta.m) == Some(FieldsOf(w'.procs[p].b))
  {
    hide Check, HashOf, Rebuilt, Saved, MetaOk, PasswordOk, Run, DiskOk, WellTyped, OnlyRebuilt, FieldsIn;
    if w.disk.meta.Meta? {
      var m0 := w.disk.meta.m;
      RunKeeps(w, es, m0, p);
      RebuiltDisk(Run(w, es), p, m0);
    } else {
      NothingWithoutMetadata(w, es);
    }
  }

  /** However many heartbeats run, successful rebuilds never exceed the writes from outside plus one. */
  lemma RebuildsAreBounded(w: World, es: seq<Event>)
    requires Initial(w)
    ensures Run(w, es).rebuilds <= Run(w, es).pemWrites + 1
  {
    hide DiskOk, Run;
    if w.disk.meta.Meta? {
      RunKeeps(w, es, w.disk.meta.m, 0);
    } else {
      NothingWithoutMetadata(w, es);
    }
  }

  /** A password that cannot be read is never replaced: in every interleaving nothing is rebuilt. */
  lemma UnreadableIsNeverRebuilt(w: World, es: seq<Event>)
    requires Initial(w) && w.disk.meta.Meta? && Resolve(w.disk.meta.m, w.key).None?
    ensures Run(w, es).rebuilds == 0 && Run(w, es).disk.meta.Meta?
    ensures Resolve(Run(w, es).disk.meta.m, w.key).None?
  {
    hide Run, Resolve;
    RunKeeps(w, es, w.disk.meta.m, 0);
    SameKey(w, es);
  }

  lemma {:induction false} SameKey(w: World, es: seq<Event>)
    ensures Run(w, es).key == w.key && Run(w, es).name == w.name
  {
    hide Check, Saved, Rebuilt, Read, HashOf;
    if es != [] { SameKey(w, es[..|es| - 1]); }
  }

  /** The bundle a heartbeat goes on with - the one it loaded, reloaded or rebuilt - always carries the hash
      of its own files. */
  lemma ReturnedHashIsItsOwn(w: World, es: seq<Event>, p: nat)
    requires Initial(w) && p in Run(w, es).procs
    ensures Run(w, es).procs[p].b.hash == HashOf(Run(w, es).procs[p].b.files)
  {
    hide DiskOk, CountOk, Run;
    if w.disk.meta.Meta? {
      RunKeeps(w, es, w.disk.meta.m, p);
    } else {
      NothingWithoutMetadata(w, es);
    }
  }

  // ---------------------------------------------------------------- an undisturbed heartbeat

  /** The steps of one heartbeat, one after the other. */
  ghost function Heartbeat(v: World, p: nat, writeOk: bool, writeOk': bool): World {
    Step(Second(First(v, p, writeOk), p, writeOk'), Rebuild(p))
  }

  ghost function First(v: World, p: nat, writeOk: bool): World {
    Step(Step(Step(v, Load(p, writeOk)), LoadMeta(p)), PreCheck(p))
  }

  ghost function Second(v: World, p: nat, writeOk: bool): World {
    Step(Step(Step(v, Acquire(p)), Reload(p, writeOk)), Recheck(p))
  }

  /** Correcting a stale hash changes nothing else that is read. */
  lemma HealedReadsAlike(w: World, writeOk: bool)
    requires w.disk.meta.Meta?
    ensures var d := HealDisk(w, writeOk).disk;
            d.meta.Meta? && d.files == w.disk.files
            && (Read(w.name, w.disk).Some? ==> Read(w.name, d) == Read(w.name, w.disk))
            && (IsAcme(d.meta.m) <==> IsAcme(w.disk.meta.m))
            && Resolve(d.meta.m, w.key) == Resolve(w.disk.meta.m, w.key)
  {
    hide HashOf;
  }

  /** The same files, the same bundle to read, the same verdict, the same counts. */
  ghost predicate Unchanged(v: World, u: World) {
    v.disk.meta.Meta? && u.disk.meta.Meta? && u.key == v.key && u.name == v.name && u.salt == v.salt
    && u.rebuilds == v.rebuilds && u.disk.files == v.disk.files && Read(u.name, u.disk) == Read(v.name, v.disk)
    && Resolve(u.disk.meta.m, u.key) == Resolve(v.disk.meta.m, v.key) && DiskVerdict(u) == DiskVerdict(v)
  }

  lemma FirstLook(v: World, p: nat, writeOk: bool, m0: Meta)
    requires DiskOk(v, m0) && ProcOk(v, p, m0) && CountOk(v)
    requires v.lock.None? && p !in v.procs && Read(v.name, v.disk).Some? && IsAcme(v.disk.meta.m)
    ensures var u := First(v, p, writeOk);
            Unchanged(v, u) && u.lock.None? && DiskOk(u, m0) && ProcOk(u, p, m0) && CountOk(u)
            && At(u, p, if DiskVerdict(v) == NeedsRebuild then Waiting else Done)
            && u.procs[p].b == Read(v.name, v.disk).value
            && Resolve(u.procs[p].m, u.key) == Resolve(v.disk.meta.m, v.key)
  {
    hide Check, HashOf, Read, Like, SealedFor, Resolve, IsAcme, DiskOk, ProcOk, CountOk, HealDisk;
    assert v.disk.meta.Meta? by { assert DiskOk(v, m0); DiskHasMeta(v, m0); }
    HealedReadsAlike(v, writeOk);
    ReadFacts(v, m0, writeOk);
    var s1 := Step(v, Load(p, writeOk));
    var s2 := Step(s1, LoadMeta(p));
    assert s2.disk == HealDisk(v, writeOk).disk && At(s2, p, HasMeta);
    StepKeeps(v, Load(p, writeOk), m0, p);
    StepKeeps(s1, LoadMeta(p), m0, p);
    StepKeeps(s2, PreCheck(p), m0, p);
    InHand(s2, p, m0);
  }

  lemma DiskHasMeta(w: World, m0: Meta)
    requires DiskOk(w, m0)
    ensures w.disk.meta.Meta?
  {}

  /** What a heartbeat has in hand leads to the verdict on the disk. */
  lemma InHand(w: World, p: nat, m0: Meta)
    requires DiskOk(w, m0) && ProcOk(w, p, m0) && (At(w, p, HasMeta) || At(w, p, Reloaded))
    requires w.procs[p].b.files == w.disk.files
    ensures w.disk.meta.Meta? && Verdict(w, p) == DiskVerdict(w)
  {
    hide Check, HashOf, Like, SealedFor, PasswordOk, FieldsIn;
    VerdictAlike(w, m0, w.procs[p].b.password, w.procs[p].m);
  }

  lemma SecondLook(v: World, p: nat, writeOk: bool, m0: Meta)
    requires DiskOk(v, m0) && ProcOk(v, p, m0) && CountOk(v)
    requires v.lock.None? && At(v, p, Waiting) && Read(v.name, v.disk).Some? && DiskVerdict(v) == NeedsRebuild
    ensures var u := Second(v, p, writeOk);
            Unchanged(v, u) && DiskOk(u, m0) && ProcOk(u, p, m0)
            && At(u, p, Rebuilding) && u.lock == Some(p)
            && u.procs[p] == v.procs[p].(pc := Rebuilding, b := Read(v.name, v.disk).value)
  {
    hide Check, HashOf, Read, Like, SealedFor, Resolve, DiskOk, ProcOk, CountOk, HealDisk;
    DiskHasMeta(v, m0);
    var s1 := Step(v, Acquire(p));
    var s2 := Step(s1, Reload(p, writeOk));
    StepKeeps(v, Acquire(p), m0, p);
    HealedReadsAlike(s1, writeOk);
    ReadFacts(s1, m0, writeOk);
    StepKeeps(s1, Reload(p, writeOk), m0, p);
    assert At(s2, p, Reloaded);
    InHand(s2, p, m0);
    StepKeeps(s2, Recheck(p), m0, p);
  }

  /** A needed rebuild takes place: in every reachable state with the lock free, a heartbeat that is not disturbed
      rebuilds the bundle of an ACME certificate exactly if the files on disk call for it and there is a chain, a
      key and a readable password to do it with.  Then they are consistent; otherwise they stay. */
  lemma UndisturbedHeartbeat(w: World, es: seq<Event>, p: nat, writeOk: bool, writeOk': bool)
    requires Initial(w) && w.disk.meta.Meta? && Run(w, es).lock.None? && p !in Run(w, es).procs
    requires var d := Run(w, es).disk;
             d.meta.Meta? && "acme" in d.meta.m && d.meta.m["acme"] == Json(1) && Read(w.name, d).Some?
    ensures var v, u := Run(w, es), Heartbeat(Run(w, es), p, writeOk, writeOk');
            var files := v.disk.files;
            At(u, p, Done) && u.lock.None? && u.disk.meta.Meta? && u.procs[p].b.files == u.disk.files
            && if DiskVerdict(v) == NeedsRebuild
                  && "fullchain.pem" in files && CertsOf(files["fullchain.pem"]) != []
                  && "privkey.pem" in files && StartsWithKey(files["privkey.pem"])
                  && Resolve(v.disk.meta.m, v.key).Some?
               then u.rebuilds == v.rebuilds + 1 && DiskVerdict(u) == Consistent
               else u.rebuilds == v.rebuilds && u.disk.files == files && DiskVerdict(u) == DiskVerdict(v)
  {
    hide Check, HashOf, Read, Run, Resolve, DiskOk, ProcOk, CountOk, First, Second, Rebuilt, Saved;
    var v, m0 := Run(w, es), w.disk.meta.m;
    RunKeeps(w, es, m0, p);
    SameKey(w, es);
    FirstLook(v, p, writeOk, m0);
    ReadFacts(v, m0, false);
    var u1 := First(v, p, writeOk);
    var u2 := Second(u1, p, writeOk');
    if DiskVerdict(v) == NeedsRebuild {
      SecondLook(u1, p, writeOk', m0);
      Rebuilds(u2, p, m0);
    } else {
      DoneStays(u1, p, writeOk');
    }
  }

  /** The last step, with the lock held. */
  lemma Rebuilds(v: World, p: nat, m0: Meta)
    requires DiskOk(v, m0) && ProcOk(v, p, m0) && At(v, p, Rebuilding) && v.lock == Some(p)
    ensures var u := Step(v, Rebuild(p));
            var files := v.disk.files;
            v.disk.meta.Meta? && u.disk.meta.Meta? && At(u, p, Done) && u.lock.None?
            && u.procs[p].b.files == u.disk.files
            && if "fullchain.pem" in files && CertsOf(files["fullchain.pem"]) != []
                  && "privkey.pem" in files && StartsWithKey(files["privkey.pem"])
                  && Resolve(v.procs[p].m, v.key).Some?
               then u.rebuilds == v.rebuilds + 1 && DiskVerdict(u) == Consistent
               else u == v.(lock := None, procs := v.procs[p := v.procs[p].(pc := Done)])
  {
    hide Check, HashOf, Resolve, Rebuilt, Saved, Like, SealedFor, PasswordOk, FieldsIn;
    DiskHasMeta(v, m0);
    RebuildPossibleExactly(v.procs[p].b, v.procs[p].m, v.key, Salts(v.salt, v.salt + 1));
    if Rebuilt(v.procs[p].b, v.procs[p].m, v.key, Salts(v.salt, v.salt + 1)).Some? { RebuiltDisk(v, p, m0); }
  }

  lemma DoneStays(v: World, p: nat, writeOk: bool)
    requires At(v, p, Done)
    ensures Second(v, p, writeOk) == v
  {}

  /** The bundle of any other certificate is left alone, whatever the heartbeats do. */
  lemma {:induction false} OthersAreNeverRebuilt(w: World, es: seq<Event>)
    requires Initial(w) && w.disk.meta.Meta? && !("acme" in w.disk.meta.m && w.disk.meta.m["acme"] == Json(1))
    ensures var v := Run(w, es);
            v.rebuilds == 0 && v.disk.meta.Meta? && !IsAcme(v.disk.meta.m)
            && forall p :: p in v.procs ==> v.procs[p].pc == Loaded || v.procs[p].pc == Done
  {
    assert !IsAcme(w.disk.meta.m);
    hide Step, IsAcme;
    if es != [] {
      OthersAreNeverRebuilt(w, es[..|es| - 1]);
      StepRebuildsNoOther(Run(w, es[..|es| - 1]), es[|es| - 1]);
    }
  }

  lemma StepRebuildsNoOther(w: World, e: Event)
    requires w.rebuilds == 0 && w.disk.meta.Meta? && !IsAcme(w.disk.meta.m)
    requires forall p :: p in w.procs ==> w.procs[p].pc == Loaded || w.procs[p].pc == Done
    ensures var v := Step(w, e);
            v.rebuilds == 0 && v.disk.meta.Meta? && !IsAcme(v.disk.meta.m)
            && forall p :: p in v.procs ==> v.procs[p].pc == Loaded || v.procs[p].pc == Done
  {
    hide Check, HashOf, Rebuilt, Saved, Read, HealDisk, IsAcme;
    HealedReadsAlike(w, e.Load? && e.writeOk);
    if e.Load? { HealOnlyDisk(w, e.writeOk); }
  }

  /** Loading a bundle corrects a stale hash in the metadata, if the file can be written. */
  lemma LoadCorrectsHash(w: World, p: nat, writeOk: bool)
    requires p !in w.procs && Read(w.name, w.disk).Some?
    ensures var w' := Step(w, Load(p, writeOk));
            if writeOk then w'.disk.meta.Meta? && HashAt(w'.disk.meta.m) == HashOf(w'.disk.files)
                            && w'.disk.files == w.disk.files
            else w'.disk == w.disk
  {
    hide HashOf, Check;
  }

  /** A write from outside lays PEM files over the directory, and counts once; it leaves everything else, the
      bundles that heartbeats have in hand included. */
  lemma OutsideWrite(w: World, files: Files)
    requires w.lock.None? && forall n :: n in files ==> n in {"fullchain.pem", "cert.pem", "privkey.pem"}
    ensures var w' := Step(w, PemWrite(files));
            w'.pemWrites == w.pemWrites + 1 && w'.rebuilds == w.rebuilds && w'.procs == w.procs
            && w'.disk.meta == w.disk.meta && w'.disk.files == w.disk.files + files
  {}

  lemma HealOnlyDisk(w: World, writeOk: bool)
    requires w.disk.meta.Meta?
    ensures HealDisk(w, writeOk) == w.(disk := HealDisk(w, writeOk).disk)
  {}

  // ---------------------------------------------------------------- one heartbeat on its own

  /** rebuildBundlePFX with its save. */
  method RebuildBundlePfx(store: Store, b: Bundle, m: Meta, salts: Salts, nonce: nat) returns (r: Option<Bundle>)
    modifies store
    ensures r.Some? <==> Rebuilt(b, m, store.key, salts).Some? && ValidName(b.name)
    ensures r.Some? ==> var b' := Rebuilt(b, m, store.key, salts).value;
                        r.value == b'.(hash := HashOf(b'.files))
                        && store.dirs == BundleHistory.SaveInto(old(store.dirs), b', store.key, nonce)
    ensures r.Some? ==> OnlyRebuilt(b.files, r.value.files) && r.value.name == b.name
                        && FieldsOf(r.value) == FieldsOf(b)
    ensures r.Some? && DirOf(old(store.dirs), b.name).files == b.files ==>
              b.name in store.dirs && OnlyRebuilt(b.files, store.dirs[b.name].files)
              && Read(b.name, store.dirs[b.name]) == Some(r.value.(password := ""))
    ensures r.None? ==> store.dirs == old(store.dirs)
  {
    hide Rebuilt, HashOf, Saved, OnlyRebuilt, OpenPfx, Read;
    var b' := Rebuilt(b, m, store.key, salts);
    if b'.None? { return None; }
    RebuildTouchesOnly(b, m, store.key, salts);
    SaveOverlaysFiles(b'.value, DirOf(store.dirs, b.name), store.key, nonce);
    BundleHistory.LoadAfterSave(b'.value, DirOf(store.dirs, b.name), store.key, nonce);
    var h := store.SaveCertBundle(b'.value, nonce);
    if h.None? { return None; }
    r := Some(b'.value.(hash := h.value));
  }

  /** ensureBundlePFXFresh without other heartbeats: the files returned are those on disk, under their own
      hash, and a certificate from ACME still needs a rebuild only if none was possible. */
  method EnsureBundlePfxFresh(store: Store, b: Bundle, writeOk: bool, salts: Salts, nonce: nat)
    returns (r: Bundle)
    requires ValidName(b.name) && b.name in store.dirs && Read(b.name, store.dirs[b.name]) == Some(b)
    modifies store
    ensures r.hash == HashOf(r.files)
    ensures b.name in store.dirs && store.dirs[b.name].meta.Meta? && store.dirs[b.name].files == r.files
    ensures MetaOk(store.dirs[b.name].meta.m, old(store.dirs)[b.name].meta.m, store.key, true)
    ensures r.name == b.name && FieldsOf(r) == FieldsOf(b)
    ensures r.files == b.files || OnlyRebuilt(b.files, r.files)
    ensures FieldsIn(store.dirs[b.name].meta.m) == Some(FieldsOf(b))
    ensures !IsAcme(old(store.dirs)[b.name].meta.m) ==> r == b && store.dirs == old(store.dirs)
    ensures IsAcme(old(store.dirs)[b.name].meta.m)
            && Check(r.files, TextAt(store.dirs[b.name].meta.m, "pfx_password"), store.dirs[b.name].meta.m,
                     store.key) == NeedsRebuild ==>
              r.files == b.files && Rebuilt(b, old(store.dirs)[b.name].meta.m, store.key, salts).None?
  {
    hide Check, Candidates, HashOf, Rebuilt, Saved, Like, SealedFor, OnlyRebuilt, FieldsIn;
    ghost var w := World(store.key, b.name, store.dirs[b.name], None, map[], 0, 0, 0);
    var m := store.dirs[b.name].meta.m;
    InitialCount(w, m);
    ReadFacts(w, m, writeOk);
    if !IsAcme(m) || Check(b.files, b.password, m, store.key) != NeedsRebuild { return b; }
    var loaded := store.LoadCertBundle(b.name, writeOk);
    if loaded.None? { return b; }
    var b2 := loaded.value;
    if Check(b2.files, b2.password, m, store.key) != NeedsRebuild { return b2; }
    ghost var disk := store.dirs[b.name];
    var rebuilt := RebuildBundlePfx(store, b2, m, salts, nonce);
    if rebuilt.None? { return b2; }
    RebuiltOnDisk(b2, m, disk, store.key, salts, nonce, m, false);
    r := rebuilt.value;
  }

  /** The password of the directory afterwards: unchanged if the metadata held but one. */
  lemma SettledIsTheOnlyOne(m: Meta, m0: Meta, key: Key, pw: string)
    requires MetaOk(m, m0, key, true) && BundleHistory.Holds(m0, key, pw)
    ensures BundleHistory.Holds(m, key, pw)
  {}

  /** Saving a rebuilt bundle over the directory it was read from. */
  lemma RebuiltOnDisk(b: Bundle, m: Meta, d: Dir, key: Key, salts: Salts, nonce: nat, m0: Meta, rebuilt: bool)
    requires MetaOk(m, m0, key, rebuilt) && PasswordOk(b.password, m0, key, rebuilt)
    requires b.files == d.files && Rebuilt(b, m, key, salts).Some?
    ensures var b' := Rebuilt(b, m, key, salts).value;
            var s := Saved(b', d, key, nonce);
            s.meta.Meta? && WellTyped(s.meta.m) && SealedFor(s.meta.m, m0, key)
            && s.files == b'.files && b'.password == Settled(m0, key) && b'.name == b.name
            && BundleHistory.OpensWith(s.files, Settled(m0, key))
            && OnlyRebuilt(b.files, s.files) && FieldsIn(s.meta.m) == Some(FieldsOf(b)) == Some(FieldsOf(b'))
            && Check(s.files, TextAt(s.meta.m, "pfx_password"), s.meta.m, key) == Consistent
  {
    hide Check, HashOf, Rebuilt, Resolve, Saved, WellTyped, Candidates, OpenPfx, OnlyRebuilt, FieldsIn;
    var b' := Rebuilt(b, m, key, salts).value;
    RebuiltPassword(b, m, key, salts);
    RebuildTouchesOnly(b, m, key, salts);
    SavedFields(b', d, key, nonce);
    SettledComesFirst(b.password, m, m0, key, rebuilt);
    SaveStoresPassword(b', d, key, nonce);
    SaveOverlaysFiles(b', d, key, nonce);
    SavedIsWellTyped(b', d, key, nonce);
    BundleHistory.ManagedComeFromTheBundle(b', d, key, nonce);
    var m' := Saved(b', d, key, nonce).meta.m;
    SettledComesFirst("", m', m0, key, true);
    RebuiltIsConsistent(b, m, key, salts, "", m');
  }
}
