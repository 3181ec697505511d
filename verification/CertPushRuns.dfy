/** Certificate push over whole runs: failed bindings come back, successes quiesce, force flags wait. */
module CertPushRuns {

  import opened Prelude
  import opened Crypto
  import opened Bundles
  import opened CertPush

  /** One node, seen from both sides. */
  datatype World = World(bindings: seq<Binding>, force: set<string>, store: map<string, Loaded>,
                         dirs: AgentDirs, key: Key, sent: set<string>)

  /** A heartbeat: scanned is false when collecting hashes times out, answered when the response arrives. */
  datatype Event =
    | Heartbeat(scanned: bool, lost: set<string>, answered: bool, outcomes: seq<Outcome>, nonce: nat)
    | Force(bundle: string)
    | NewStore(store: map<string, Loaded>)

  ghost function EnvOf(w: World, e: Event): Env
    requires e.Heartbeat?
  {
    Env(w.store, if e.scanned then ReportOf(w.dirs) else map[], e.lost, w.key, e.nonce)
  }

  ghost function Response(w: World, e: Event): (seq<CertUpdate>, set<string>)
    requires e.Heartbeat?
  {
    Push(EnvOf(w, e), w.bindings, w.force)
  }

  /** A heartbeat whose outcomes do not fit the response is taken as unanswered. */
  predicate Delivered(e: Event, us: seq<CertUpdate>)
    requires e.Heartbeat?
  {
    e.answered && |e.outcomes| == |us|
  }

  /** sent collects the bundles that were in some response. */
  ghost function Step(w: World, e: Event): World {
    match e
    case Heartbeat(_, _, _, _, _) =>
      var (us, f) := Response(w, e);
      w.(force := f, sent := w.sent + (set u | u in us :: u.bundle),
         dirs := if Delivered(e, us) then Applied(w.dirs, us, w.key, e.outcomes) else w.dirs)
    case Force(b) => w.(force := w.force + {b})
    case NewStore(store) => w.(store := store)
  }

  ghost function Run(w: World, es: seq<Event>): World {
    if es == [] then w else Step(Run(w, es[..|es| - 1]), es[|es| - 1])
  }

  // ---------------------------------------------------------------- force flags

  lemma SentExactly(us: seq<CertUpdate>, b: string)
    ensures b in (set u | u in us :: u.bundle) <==> HasUpdate(us, b)
  {}

  /** A force flag set by an administrator is still there, or the bundle has been in a response since. */
  lemma {:induction false} ForceSurvivesUntilSent(w: World, es: seq<Event>, b: string)
    requires b in w.force
    ensures b in Run(w, es).force || b in Run(w, es).sent
  {
    hide Push, Response, Applied;
    if es != [] {
      var init := es[..|es| - 1];
      var e := es[|es| - 1];
      ForceSurvivesUntilSent(w, init, b);
      var v := Run(w, init);
      if e.Heartbeat? { HeartbeatForce(v, e, b); }
    }
  }

  lemma HeartbeatForce(w: World, e: Event, b: string)
    requires e.Heartbeat?
    ensures b in Step(w, e).force <==> b in w.force && !HasUpdate(Response(w, e).0, b)
    ensures b in Step(w, e).sent <==> b in w.sent || HasUpdate(Response(w, e).0, b)
  {
    hide Push, Applied, ReportOf, HasUpdate;
    InResponseExactly(EnvOf(w, e), w.bindings, w.force, b);
    SentExactly(Response(w, e).0, b);
  }

  /** While it is there, every response with a bundle that can be pushed at all has it, reported or not. */
  lemma ForcedIsSent(w: World, e: Event, b: string)
    requires e.Heartbeat? && b in w.force && IsBound(w.bindings, b) && Pushable(EnvOf(w, e), b)
    ensures HasUpdate(Response(w, e).0, b) && b !in Step(w, e).force
  {
    hide Push, Applied, ReportOf, HasUpdate, Pushable, IsBound;
    InResponseExactly(EnvOf(w, e), w.bindings, w.force, b);
    HeartbeatForce(w, e, b);
  }

  /** When the hashes could not be collected, every bound bundle that can be pushed is sent again. */
  lemma UnscannedSendsAll(w: World, e: Event, b: string)
    requires e.Heartbeat? && !e.scanned && IsBound(w.bindings, b) && Pushable(EnvOf(w, e), b)
    ensures HasUpdate(Response(w, e).0, b)
  {
    hide Push, ReportOf, HasUpdate, Pushable, IsBound;
    InResponseExactly(EnvOf(w, e), w.bindings, w.force, b);
  }

  /** The node can read what it is sent: every file of an update opens with its own key and is the bundle's. */
  lemma SentIsReadable(w: World, e: Event, u: CertUpdate, n: string)
    requires e.Heartbeat? && u in Response(w, e).0 && n in u.files
    ensures u.bundle in w.store && n in w.store[u.bundle].files
    ensures Decrypt(w.key, CertTransport, u.files[n]) == Some(w.store[u.bundle].files[n])
  {
    hide Push, ReportOf;
    UpdatesAreFaithful(EnvOf(w, e), w.bindings, w.force, u);
  }

  /** What the administrator does: one more flag, or other bundles; neither touches the agent. */
  lemma AdministratorActs(w: World, b: string, store: map<string, Loaded>)
    ensures b in Step(w, Force(b)).force && Step(w, Force(b)).force - {b} == w.force - {b}
    ensures Step(w, Force(b)) == w.(force := Step(w, Force(b)).force) && Step(w, NewStore(store)) == w.(store := store)
  {}

  // ---------------------------------------------------------------- what applying leaves

  /** The last update into a directory decides its mark. */
  lemma {:induction false} LastDecides(dirs: AgentDirs, us: seq<CertUpdate>, key: Key, os: seq<Outcome>, i: nat)
    requires |us| == |os| && i < |us| && us[i].target.Legal?
    requires forall j :: i < j < |us| ==> us[j].target != us[i].target
    ensures us[i].target.place in Applied(dirs, us, key, os)
    ensures Applied(dirs, us, key, os)[us[i].target.place].mark
            == Some(if os[i].bound then Deployed(us[i].hash) else Pending)
  {
    hide Landed;
    if i < |us| - 1 {
      LastDecides(dirs, us[..|us| - 1], key, os[..|os| - 1], i);
      assert us[|us| - 1].target != us[i].target;
    }
  }

  /** A directory no update went into is as it was; one that some went into has the mark of one of them. */
  lemma {:induction false} MarksAfter(dirs: AgentDirs, us: seq<CertUpdate>, key: Key, os: seq<Outcome>, p: Place)
    requires |us| == |os|
    ensures var dirs' := Applied(dirs, us, key, os);
            if exists j :: 0 <= j < |us| && us[j].target == Legal(p)
            then p in dirs' && exists j :: 0 <= j < |us| && us[j].target == Legal(p)
                                && dirs'[p].mark == Some(if os[j].bound then Deployed(us[j].hash) else Pending)
            else (p in dirs' <==> p in dirs) && (p in dirs ==> dirs'[p] == dirs[p])
  {
    hide Landed;
    if us != [] {
      var us', os' := us[..|us| - 1], os[..|os| - 1];
      MarksAfter(dirs, us', key, os', p);
      var n := |us| - 1;
      if us[n].target != Legal(p) {
        assert forall j :: 0 <= j < n ==> us'[j] == us[j] && os'[j] == os[j];
      }
    }
  }

  // ---------------------------------------------------------------- a binding that failed

  /** After a delivered update whose binding failed, the next heartbeat that scans gets the bundle again -
      exactly if no other directory reports its hash.  (The bundle itself has not changed.) */
  lemma FailedBindingIsRetried(w: World, e: Event, i: nat, e': Event)
    requires e.Heartbeat? && Delivered(e, Response(w, e).0)
    requires i < |Response(w, e).0| && Response(w, e).0[i].target.Legal? && !e.outcomes[i].bound
    requires forall j :: i < j < |Response(w, e).0| ==> Response(w, e).0[j].target != Response(w, e).0[i].target
    requires e'.Heartbeat? && e'.scanned && Pushable(EnvOf(Step(w, e), e'), Response(w, e).0[i].bundle)
    ensures var u := Response(w, e).0[i];
            HasUpdate(Response(Step(w, e), e').0, u.bundle) <==>
              forall p :: p in Step(w, e).dirs && p != u.target.place ==>
                Line(p, Step(w, e).dirs[p]) != Some(Deployed(u.hash))
  {
    hide Push, Applied, Carried, HasUpdate, Line, Reported, IsBound;
    var us := Response(w, e).0;
    var u := us[i];
    var w' := Step(w, e);
    assert u in us;
    UpdatesAreFaithful(EnvOf(w, e), w.bindings, w.force, u);
    LastDecides(w.dirs, us, w.key, e.outcomes, i);
    PendingReportsNothing(u.target.place, w'.dirs[u.target.place], u.hash);
    BoundTarget(w.bindings, u);
    InUpdates(us, u);
    HeartbeatForce(w, e, u.bundle);
    InResponseExactly(EnvOf(w', e'), w'.bindings, w'.force, u.bundle);
    ReportedExactly(w'.dirs, u.hash);
    assert EnvOf(w', e').store[u.bundle].hash == u.hash;
    assert HasUpdate(Response(w', e').0, u.bundle) <==> !Reported(ReportOf(w'.dirs), u.hash);
  }

  /** A response that never arrives is made up for by the next heartbeat, except where only the force flag
      had put the bundle into it: the flag is spent. */
  lemma LostResponseIsRepeated(w: World, e: Event, b: string, e': Event)
    requires e.Heartbeat? && !Delivered(e, Response(w, e).0) && HasUpdate(Response(w, e).0, b)
    requires e'.Heartbeat? && e'.scanned && Pushable(EnvOf(Step(w, e), e'), b)
    ensures HasUpdate(Response(Step(w, e), e').0, b) <==> !Reported(ReportOf(w.dirs), w.store[b].hash)
  {
    hide Push, Carried, HasUpdate, ReportOf, Reported, IsBound;
    InResponseExactly(EnvOf(w, e), w.bindings, w.force, b);
    HeartbeatForce(w, e, b);
    var w' := Step(w, e);
    InResponseExactly(EnvOf(w', e'), w'.bindings, w'.force, b);
  }

  lemma ReportedExactly(dirs: AgentDirs, h: Hash)
    ensures Reported(ReportOf(dirs), h) <==> exists p :: p in dirs && Line(p, dirs[p]) == Some(Deployed(h))
  {
    hide Line;
    if p :| p in dirs && Line(p, dirs[p]) == Some(Deployed(h)) { assert p in ReportOf(dirs); }
  }

  lemma InUpdates(us: seq<CertUpdate>, u: CertUpdate)
    requires u in us
    ensures HasUpdate(us, u.bundle)
  {}

  lemma BoundTarget(bs: seq<Binding>, u: CertUpdate)
    requires exists b :: b in bs && b.bundle == u.bundle && b.target == u.target
    ensures IsBound(bs, u.bundle)
  {}

  lemma PendingReportsNothing(p: Place, d: AgentDir, h: Hash)
    requires d.mark == Some(Pending)
    ensures Line(p, d) != Some(Deployed(h))
  {}

  /** Why the sentinel is written: a directory that holds exactly the bundle's files and no mark reports
      the bundle's hash, and would pass for deployed. */
  lemma SentinelIsNeeded(name: string, l: Loaded)
    requires !Hidden(name) && l.files != map[] && "meta.json" !in l.files && l.hash == HashOf(l.files)
    ensures Line(Under([name]), AgentDir(l.files, None)) == Some(Deployed(l.hash))
    ensures Line(Under([name]), AgentDir(l.files, Some(Pending))) != Some(Deployed(l.hash))
  {
    assert NoMeta(l.files) == l.files;
  }

  /** The mark speaks for the binding, not for the files: with every file unwritten and the binding reported
      as successful, the directory reports the bundle as deployed. */
  lemma MarkHidesUnwrittenFiles(dirs: AgentDirs, u: CertUpdate, key: Key)
    requires u.target.Legal? && Walked(u.target.place)
    ensures var dirs' := ApplyOne(dirs, u, key, Outcome(u.files.Keys, true));
            dirs'[u.target.place].files == DirAt(dirs, u.target.place).files
            && Line(u.target.place, dirs'[u.target.place]) == Some(Deployed(u.hash))
  {}

  /** A directory holds every file of the update. */
  predicate HoldsAll(files: Files, u: CertUpdate, key: Key) {
    forall n :: n in u.files ==> n in files && Some(files[n]) == Decrypt(key, CertTransport, u.files[n])
  }

  /** A file that failed does no harm exactly if the directory had it already. */
  predicate HadAlready(files: Files, u: CertUpdate, key: Key, n: string)
    requires n in u.files
  {
    n in files && Some(files[n]) == Decrypt(key, CertTransport, u.files[n])
  }

  /** Whether the mark is truthful: an update that reached an agent with the right key, was bound and got
      marked leaves all its files in the directory exactly if every file that could not be written was there
      already - in particular if none failed. */
  lemma MarkIsTruthfulExactly(env: Env, bs: seq<Binding>, force: set<string>, u: CertUpdate, dirs: AgentDirs,
                              o: Outcome)
    requires u in Push(env, bs, force).0 && u.target.Legal? && Walked(u.target.place) && o.bound
    ensures var p := u.target.place;
            var d := ApplyOne(dirs, u, env.key, o)[p];
            Line(p, d) == Some(Deployed(u.hash))
            && (HoldsAll(d.files, u, env.key) <==>
                  forall n :: n in o.failed && n in u.files ==> HadAlready(DirAt(dirs, p).files, u, env.key, n))
            && (o.failed !! u.files.Keys ==> HoldsAll(d.files, u, env.key))
  {
    hide Push;
    UpdatesAreFaithful(env, bs, force, u);
    assert forall n :: n in u.files ==> Decrypt(env.key, CertTransport, u.files[n]).Some?;
    FilesAfterExactly(dirs, u, env.key, o);
  }

  /** The same for any key: a file must decrypt, and be written or be there already. */
  lemma FilesAfterExactly(dirs: AgentDirs, u: CertUpdate, key: Key, o: Outcome)
    requires u.target.Legal?
    ensures var p := u.target.place;
            HoldsAll(ApplyOne(dirs, u, key, o)[p].files, u, key) <==>
              forall n :: n in u.files ==>
                Decrypt(key, CertTransport, u.files[n]).Some?
                && (n !in o.failed || HadAlready(DirAt(dirs, p).files, u, key, n))
  {
    var before, landed := DirAt(dirs, u.target.place).files, Landed(u, key, o.failed);
    forall n | n in u.files
      ensures HadAlready(before + landed, u, key, n) <==>
                Decrypt(key, CertTransport, u.files[n]).Some? && (n !in o.failed || HadAlready(before, u, key, n))
    {}
    assert HoldsAll(before + landed, u, key) <==>
             forall n :: n in u.files ==> HadAlready(before + landed, u, key, n);
  }

  // ---------------------------------------------------------------- success quiesces

  /** Nothing more to push to this node: every bound bundle that could be pushed is reported and not forced. */
  ghost predicate QuietFor(w: World, b: string) {
    b in w.store && w.store[b].password.Some? && w.store[b].files != map[] ==>
      Reported(ReportOf(w.dirs), w.store[b].hash) && b !in w.force
  }

  ghost predicate Quiet(w: World) { forall b :: IsBound(w.bindings, b) ==> QuietFor(w, b) }

  lemma NothingCarried(l: Loaded, env: Env)
    requires l.files == map[]
    ensures Carried(l, env) == map[]
  {}

  lemma AllCarried(l: Loaded, env: Env)
    requires l.files != map[] && env.lost == {}
    ensures Carried(l, env) != map[]
  {}

  lemma QuietMeansNoUpdates(w: World, e: Event)
    requires Quiet(w) && e.Heartbeat? && e.scanned
    ensures Response(w, e).0 == []
    ensures Step(w, e) == w.(force := Response(w, e).1, sent := w.sent)
  {
    hide Push, ReportOf, Carried;
    var us := Response(w, e).0;
    if us != [] {
      var b := us[0].bundle;
      assert us[0] in us;
      InUpdates(us, us[0]);
      InResponseExactly(EnvOf(w, e), w.bindings, w.force, b);
      assert QuietFor(w, b);
      NothingCarried(w.store[b], EnvOf(w, e));
      assert false;
    }
    AppliedNothing(w.dirs, w.key);
  }

  lemma AppliedNothing(dirs: AgentDirs, key: Key)
    ensures Applied(dirs, [], key, []) == dirs
    ensures (set u: CertUpdate | u in [] :: u.bundle) == {}
  {}

  lemma QuietForce(w: World, e: Event)
    requires Quiet(w) && e.Heartbeat? && e.scanned
    ensures Response(w, e).1 == w.force
  {
    hide Push, ReportOf, Carried, Quiet;
    QuietMeansNoUpdates(w, e);
    forall b ensures b in Response(w, e).1 <==> b in w.force {
      InResponseExactly(EnvOf(w, e), w.bindings, w.force, b);
    }
  }

  /** Once quiet, heartbeats change nothing, for as long as neither bundles nor flags change. */
  lemma {:induction false} QuietForever(w: World, es: seq<Event>)
    requires Quiet(w) && forall e :: e in es ==> e.Heartbeat? && e.scanned
    ensures Run(w, es) == w
  {
    hide Quiet, Response;
    if es != [] {
      var e := es[|es| - 1];
      assert e in es;
      QuietForever(w, es[..|es| - 1]);
      QuietMeansNoUpdates(w, e);
      QuietForce(w, e);
    }
  }

  /** A fully successful heartbeat: scanned, nothing lost, delivered, every update bound, into a directory
      the agent reports, and no directory given two bundles with different hashes. */
  ghost predicate Success(w: World, e: Event) {
    e.Heartbeat? && e.scanned && e.lost == {} && Delivered(e, Response(w, e).0)
    && (forall i :: 0 <= i < |e.outcomes| ==> e.outcomes[i].bound)
    && (forall u :: u in Response(w, e).0 ==> u.target.Legal? && Walked(u.target.place))
    && forall u, v :: u in Response(w, e).0 && v in Response(w, e).0 && u.target == v.target ==> u.hash == v.hash
  }

  /** Some directory that reports the hash is not given another one by this response. */
  ghost predicate Undisturbed(w: World, e: Event, h: Hash)
    requires e.Heartbeat?
  {
    exists p :: p in w.dirs && Line(p, w.dirs[p]) == Some(Deployed(h))
                && forall u :: u in Response(w, e).0 && u.target == Legal(p) ==> u.hash == h
  }

  lemma StillReported(w: World, e: Event, h: Hash)
    requires Success(w, e) && Undisturbed(w, e, h)
    ensures Reported(ReportOf(Step(w, e).dirs), h)
  {
    hide Push, Applied;
    var us := Response(w, e).0;
    var p :| p in w.dirs && Line(p, w.dirs[p]) == Some(Deployed(h))
             && forall u :: u in us && u.target == Legal(p) ==> u.hash == h;
    MarksAfter(w.dirs, us, w.key, e.outcomes, p);
    var dirs' := Step(w, e).dirs;
    assert p in dirs' && Line(p, dirs'[p]) == Some(Deployed(h));
    assert p in ReportOf(dirs');
  }

  lemma NowReported(w: World, e: Event, i: nat)
    requires Success(w, e) && i < |Response(w, e).0|
    ensures Reported(ReportOf(Step(w, e).dirs), Response(w, e).0[i].hash)
  {
    hide Push, Applied;
    var us := Response(w, e).0;
    var p := us[i].target.place;
    MarksAfter(w.dirs, us, w.key, e.outcomes, p);
    var dirs' := Step(w, e).dirs;
    assert us[i] in us;
    assert p in dirs' && Line(p, dirs'[p]) == Some(Deployed(us[i].hash));
    assert p in ReportOf(dirs');
  }

  /** One fully successful heartbeat is enough, unless it overwrites the only directory that vouches for a
      bundle it did not have to carry. */
  lemma SuccessQuiesces(w: World, e: Event, b: string)
    requires Success(w, e) && IsBound(w.bindings, b)
    requires b in w.store && Reported(ReportOf(w.dirs), w.store[b].hash) && b !in w.force ==>
               Undisturbed(w, e, w.store[b].hash)
    ensures QuietFor(Step(w, e), b)
  {
    hide Push, Applied, ReportOf, Carried, Undisturbed, Reported;
    var w' := Step(w, e);
    if b in w.store && w.store[b].password.Some? && w.store[b].files != map[] {
      AllCarried(w.store[b], EnvOf(w, e));
      InResponseExactly(EnvOf(w, e), w.bindings, w.force, b);
      HeartbeatForce(w, e, b);
      if HasUpdate(Response(w, e).0, b) {
        var u :| u in Response(w, e).0 && u.bundle == b;
        var i :| 0 <= i < |Response(w, e).0| && Response(w, e).0[i] == u;
        UpdatesAreFaithful(EnvOf(w, e), w.bindings, w.force, u);
        NowReported(w, e, i);
      } else {
        StillReported(w, e, w.store[b].hash);
      }
    }
  }

  /** So after such a heartbeat the node gets no certificate again until a bundle or a flag changes. */
  lemma OneSuccessThenSilence(w: World, e: Event, es: seq<Event>)
    requires Success(w, e)
    requires forall b :: b in w.store && IsBound(w.bindings, b) && Reported(ReportOf(w.dirs), w.store[b].hash) ==>
               b in w.force || Undisturbed(w, e, w.store[b].hash)
    requires forall x :: x in es ==> x.Heartbeat? && x.scanned
    ensures Run(Step(w, e), es) == Step(w, e)
    ensures forall x :: x in es ==> Response(Step(w, e), x).0 == []
  {
    hide Success, Undisturbed, QuietFor, Response, Run;
    var w' := Step(w, e);
    forall b | IsBound(w.bindings, b) ensures QuietFor(w', b) { SuccessQuiesces(w, e, b); }
    SameBindings(w, e);
    QuietForever(w', es);
    forall x | x in es ensures Response(w', x).0 == [] { QuietMeansNoUpdates(w', x); }
  }

  lemma SameBindings(w: World, e: Event)
    ensures Step(w, e).bindings == w.bindings
  {}

  /** A directory outside the scanned part of the certificate path never reports: a bundle bound there is
      pushed at every heartbeat (unless it is also deployed elsewhere). */
  lemma UnseenTargetNeverQuiesces(w: World, e: Event, b: string)
    requires e.Heartbeat? && IsBound(w.bindings, b) && Pushable(EnvOf(w, e), b)
    requires forall p :: p in w.dirs && Walked(p) ==> Line(p, w.dirs[p]) != Some(Deployed(w.store[b].hash))
    ensures HasUpdate(Response(w, e).0, b)
  {
    hide Push, Carried, HasUpdate, IsBound;
    InResponseExactly(EnvOf(w, e), w.bindings, w.force, b);
  }
}
