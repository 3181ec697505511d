/** Renewal of ACME certificates by concurrent callers: one lock per certificate directory, and a
    second look at the expiry date once the lock is held. */
module CertRenewal {

  import opened Prelude

  /** A certificate on disk: its content and the second it expires. */
  datatype Cert = Cert(content: nat, notAfter: int)

  const RENEW_BEFORE := 30 * 24 * 3600

  predicate Due(c: Cert, now: int) { c.notAfter - now <= RENEW_BEFORE }

  // ---------------------------------------------------------------- one lock per directory

  /** The lock table of the manager; a lock is known by its number. */
  class LockTable {
    var renewing: map<string, nat>
    var next: nat

    predicate Valid() reads this {
      (forall d :: d in renewing ==> renewing[d] < next)
      && forall d, e :: d in renewing && e in renewing && renewing[d] == renewing[e] ==> d == e
    }

    constructor ()
      ensures Valid() && renewing == map[]
    {
      renewing, next := map[], 0;
    }

    /** lockCert, up to waiting for the lock: every caller gets the directory's own lock. */
    method LockOf(certDir: string) returns (lock: nat)
      requires Valid()
      modifies this
      ensures Valid() && certDir in renewing && lock == renewing[certDir]
      ensures forall d :: d in old(renewing) ==> d in renewing && renewing[d] == old(renewing)[d]
      ensures renewing.Keys == old(renewing).Keys + {certDir}
    {
      if certDir !in renewing {
        renewing := renewing[certDir := next];
        next := next + 1;
      }
      lock := renewing[certDir];
    }
  }

  // ---------------------------------------------------------------- what a finished run counts as

  datatype Kind = Ok | Skipped | NotReplaced | Failed

  /** The end of renewOne: exit status, the output's "not yet due", whether the content changed, and
      whether the metadata could be updated. */
  method Classify(forced: bool, exitOk: bool, saysNotDue: bool, changed: bool, readable: bool, metaOk: bool)
    returns (kind: Kind)
    ensures kind == Ok <==> exitOk && readable && changed && metaOk
    ensures kind == Skipped <==> !exitOk && saysNotDue && !changed && !forced
    ensures kind == NotReplaced <==> exitOk && readable && !changed
  {
    if !exitOk {
      if !forced && saysNotDue && !changed { return Skipped; }
      return Failed;
    }
    if !readable { return Failed; }
    if !changed { return NotReplaced; }
    if !metaOk { return Failed; }
    kind := Ok;
  }

  // ---------------------------------------------------------------- processes

  /** Where a renewal stands.  Everything from Locked to Returned happens under the directory's lock. */
  datatype Pc = Waiting | Locked | Ready | Running | Returned | Done

  /** checkedAt is when the expiry was last looked at, readable whether the second look saw the file. */
  datatype Proc = Proc(dir: string, forced: bool, pc: Pc, checkedAt: int, readable: bool)

  /** A replacement of a certificate: by whom it was decided, when the old one was looked at, if at all. */
  datatype Install = Install(cert: Cert, forced: bool, checkedAt: int, readable: bool)

  datatype World = World(clock: int, certs: map<string, Cert>, locks: map<string, nat>,
                         procs: map<nat, Proc>, installs: map<string, seq<Install>>)

  datatype Event =
    | Tick(seconds: nat)
    | Begin(p: nat, dir: string, forced: bool)
    | Acquire(p: nat)
    | Recheck(p: nat, readable: bool)
    | Launch(p: nat, envOk: bool)
    | Exit(p: nat, replaced: Option<Cert>)
    | Finish(p: nat)

  predicate At(w: World, p: nat, pc: Pc) { p in w.procs && w.procs[p].pc == pc }

  function Move(w: World, p: nat, pc: Pc): World
    requires p in w.procs
  {
    w.(procs := w.procs[p := w.procs[p].(pc := pc)])
  }

  function Release(w: World, p: nat): World
    requires p in w.procs
  {
    Move(w, p, Done).(locks := w.locks - {w.procs[p].dir})
  }

  function Installs(w: World, dir: string): seq<Install> {
    if dir in w.installs then w.installs[dir] else []
  }

  function Installed(proc: Proc, c: Cert): Install { Install(c, proc.forced, proc.checkedAt, proc.readable) }

  function Step(w: World, e: Event): World {
    match e
    case Tick(d) => w.(clock := w.clock + d)
    case Begin(p, dir, forced) =>
      if p in w.procs || dir !in w.certs then w
      else
        var pc := if !forced && !Due(w.certs[dir], w.clock) then Done else Waiting;
        w.(procs := w.procs[p := Proc(dir, forced, pc, w.clock, true)])
    case Acquire(p) =>
      if !At(w, p, Waiting) || w.procs[p].dir in w.locks then w
      else Move(w, p, Locked).(locks := w.locks[w.procs[p].dir := p])
    case Recheck(p, readable) =>
      if !At(w, p, Locked) then w
      else
        var proc := w.procs[p];
        if readable && proc.dir in w.certs && !proc.forced && !Due(w.certs[proc.dir], w.clock) then Release(w, p)
        else w.(procs := w.procs[p := proc.(pc := Ready, checkedAt := w.clock, readable := readable)])
    case Launch(p, envOk) =>
      if !At(w, p, Ready) then w else if envOk then Move(w, p, Running) else Release(w, p)
    case Exit(p, replaced) =>
      if !At(w, p, Running) then w
      else
        var proc := w.procs[p];
        var w' := Move(w, p, Returned);
        if replaced.None? then w'
        else w'.(certs := w.certs[proc.dir := replaced.value],
                 installs := w.installs[proc.dir := Installs(w, proc.dir) + [Installed(proc, replaced.value)]])
    case Finish(p) =>
      if !At(w, p, Returned) then w else Release(w, p)
  }

  function Run(w: World, es: seq<Event>): World {
    if es == [] then w else Step(Run(w, es[..|es| - 1]), es[|es| - 1])
  }

  predicate Initial(w: World) {
    w.locks == map[] && w.procs == map[] && w.installs == map[]
  }

  // ---------------------------------------------------------------- mutual exclusion

  predicate Critical(pc: Pc) { pc == Locked || pc == Ready || pc == Running || pc == Returned }

  predicate Holds(w: World, p: nat) {
    p in w.procs && Critical(w.procs[p].pc) ==>
      w.procs[p].dir in w.locks && w.locks[w.procs[p].dir] == p
  }

  predicate Held(w: World, d: string) {
    d in w.locks ==>
      w.locks[d] in w.procs && w.procs[w.locks[d]].dir == d && Critical(w.procs[w.locks[d]].pc)
  }

  /** A process is in its critical section exactly while it holds its directory's lock. */
  ghost predicate LockInv(w: World) {
    (forall p :: Holds(w, p)) && forall d :: Held(w, d)
  }

  lemma StepKeepsHolds(w: World, e: Event, p: nat)
    requires LockInv(w)
    ensures Holds(Step(w, e), p)
  {
    assert Holds(w, p);
    if e.Recheck? || e.Launch? || e.Finish? { assert Holds(w, e.p); }
  }

  lemma StepKeepsHeld(w: World, e: Event, d: string)
    requires LockInv(w)
    ensures Held(Step(w, e), d)
  {
    assert Held(w, d);
    if !e.Tick? { assert Holds(w, e.p); }
  }

  lemma StepKeepsLocks(w: World, e: Event)
    requires LockInv(w)
    ensures LockInv(Step(w, e))
  {
    forall p ensures Holds(Step(w, e), p) { StepKeepsHolds(w, e, p); }
    forall d ensures Held(Step(w, e), d) { StepKeepsHeld(w, e, d); }
  }

  lemma {:induction false} RunKeepsLocks(w: World, es: seq<Event>)
    requires Initial(w)
    ensures LockInv(Run(w, es))
  {
    if es != [] {
      RunKeepsLocks(w, es[..|es| - 1]);
      StepKeepsLocks(Run(w, es[..|es| - 1]), es[|es| - 1]);
    }
  }

  /** acme.sh never runs twice at once on one certificate directory, forced renewals included. */
  lemma NeverTwiceAtOnce(w: World, es: seq<Event>, p: nat, q: nat)
    requires Initial(w)
    ensures var w' := Run(w, es);
            At(w', p, Running) && At(w', q, Running) && w'.procs[p].dir == w'.procs[q].dir ==> p == q
  {
    RunKeepsLocks(w, es);
    assert Holds(Run(w, es), p) && Holds(Run(w, es), q);
  }

  // ---------------------------------------------------------------- no needless replacement

  /** An ordinary renewal that could read at its second look has seen the certificate that is still there,
      and it was due. */
  predicate FoundDue(w: World, p: nat) {
    p in w.procs && (w.procs[p].pc == Ready || w.procs[p].pc == Running)
    && !w.procs[p].forced && w.procs[p].readable ==>
      w.procs[p].dir in w.certs && Due(w.certs[w.procs[p].dir], w.procs[p].checkedAt)
  }

  ghost predicate DueInv(w: World) { forall p :: FoundDue(w, p) }

  /** The latest replacement is what is on disk, and every ordinary one that could look found its
      predecessor due. */
  predicate InstallsOk(w: World, d: string) {
    var log := Installs(w, d);
    (log != [] ==> d in w.certs && w.certs[d] == log[|log| - 1].cert)
    && forall i :: 0 < i < |log| && !log[i].forced && log[i].readable ==> Due(log[i - 1].cert, log[i].checkedAt)
  }

  predicate CertsThere(w: World) { forall p :: p in w.procs ==> w.procs[p].dir in w.certs }

  lemma StepKeepsFoundDue(w: World, e: Event, p: nat)
    requires FoundDue(w, p) && CertsThere(w) && Holds(w, p) && (!e.Tick? ==> Holds(w, e.p))
    ensures FoundDue(Step(w, e), p)
  {}

  lemma StepKeepsCerts(w: World, e: Event)
    requires CertsThere(w)
    ensures CertsThere(Step(w, e))
  {}

  lemma StepKeepsDue(w: World, e: Event)
    requires LockInv(w) && DueInv(w) && CertsThere(w)
    ensures DueInv(Step(w, e)) && CertsThere(Step(w, e))
  {
    hide Step, FoundDue, Holds;
    StepKeepsCerts(w, e);
    forall p ensures FoundDue(Step(w, e), p) {
      assert FoundDue(w, p) && Holds(w, p) && (!e.Tick? ==> Holds(w, e.p));
      StepKeepsFoundDue(w, e, p);
    }
  }

  lemma StepKeepsInstalls(w: World, e: Event, d: string)
    requires DueInv(w) && InstallsOk(w, d) && CertsThere(w)
    ensures InstallsOk(Step(w, e), d)
  {
    if e.Exit? { assert FoundDue(w, e.p); }
  }

  lemma {:induction false} RunKeepsInstalls(w: World, es: seq<Event>, d: string)
    requires Initial(w)
    ensures DueInv(Run(w, es)) && InstallsOk(Run(w, es), d) && CertsThere(Run(w, es))
  {
    if es != [] {
      var init := es[..|es| - 1];
      RunKeepsInstalls(w, init, d);
      RunKeepsLocks(w, init);
      StepKeepsDue(Run(w, init), es[|es| - 1]);
      StepKeepsInstalls(Run(w, init), es[|es| - 1], d);
    }
  }

  /** In every interleaving, of two successive replacements of one certificate the first had come due when
      the second was decided, unless the second was forced or could not read the file at its second look.
      So however many renewals were waiting for the lock, those that can read replace it once per due date. */
  lemma OneReplacementPerDueDate(w: World, es: seq<Event>, d: string, i: nat)
    requires Initial(w) && i + 1 < |Installs(Run(w, es), d)|
    ensures var log := Installs(Run(w, es), d);
            Due(log[i].cert, log[i + 1].checkedAt) || log[i + 1].forced || !log[i + 1].readable
  {
    RunKeepsInstalls(w, es, d);
  }

  /** What decides under the lock: in every reachable state a renewal goes on exactly if it is forced, cannot
      read the certificate, or finds it due; otherwise it leaves the certificate and frees the lock. */
  lemma SecondLookDecides(w: World, es: seq<Event>, p: nat, readable: bool)
    requires Initial(w) && At(Run(w, es), p, Locked)
    ensures var v, v' := Run(w, es), Step(Run(w, es), Recheck(p, readable));
            v.procs[p].dir in v.certs && v'.certs == v.certs && v'.installs == v.installs
            && (At(v', p, Ready) <==>
                  v.procs[p].forced || !readable
                  || v.certs[v.procs[p].dir].notAfter - v.clock <= 30 * 24 * 3600)
            && (!At(v', p, Ready) ==> At(v', p, Done) && v'.locks == v.locks - {v.procs[p].dir})
  {
    RunKeepsInstalls(w, es, "");
  }

  /** The first look is the same, without a lock: a renewal waits for the lock exactly if it is forced or the
      certificate has at most thirty days left. */
  lemma FirstLookDecides(w: World, p: nat, d: string, forced: bool)
    requires p !in w.procs && d in w.certs
    ensures var w' := Step(w, Begin(p, d, forced));
            w' == w.(procs := w'.procs) && w'.procs.Keys == w.procs.Keys + {p} && w'.procs[p].dir == d
            && w'.procs[p].forced == forced
            && (At(w', p, Waiting) <==> forced || w.certs[d].notAfter - w.clock <= 30 * 24 * 3600)
            && (!At(w', p, Waiting) ==> At(w', p, Done))
  {}

  /** A certificate changes, and a replacement is entered, exactly when a run of acme.sh for its directory
      returns with a new one; it is then what the run brought.  The run may bring none. */
  lemma ReplacedExactly(w: World, es: seq<Event>, e: Event, d: string)
    requires Initial(w)
    ensures var v, v' := Run(w, es), Step(Run(w, es), e);
            if e.Exit? && At(v, e.p, Running) && v.procs[e.p].dir == d && e.replaced.Some?
            then d in v'.certs && v'.certs[d] == e.replaced.value && |Installs(v', d)| == |Installs(v, d)| + 1
            else Installs(v', d) == Installs(v, d) && (d in v'.certs <==> d in v.certs)
                 && (d in v.certs ==> v'.certs[d] == v.certs[d])
  {}

  /** The lock of a directory is given back exactly by its holder, in one of three ways: the second look finds
      nothing to do, the environment of the run cannot be set up, or the run is over and recorded.  The
      renewal is then done; and whoever is done holds no lock. */
  lemma FreedExactly(w: World, es: seq<Event>, e: Event, d: string)
    requires Initial(w) && d in Run(w, es).locks
    ensures var v, v' := Run(w, es), Step(Run(w, es), e);
            var p := v.locks[d];
            p in v.procs && v.procs[p].dir == d
            && (d !in v'.locks <==>
                  (e == Recheck(p, true) && At(v, p, Locked) && !v.procs[p].forced
                   && d in v.certs && v.certs[d].notAfter - v.clock > 30 * 24 * 3600)
                  || (e == Launch(p, false) && At(v, p, Ready))
                  || (e == Finish(p) && At(v, p, Returned)))
            && (d in v'.locks ==> v'.locks[d] == p)
            && (At(v', p, Done) <==> d !in v'.locks)
  {
    RunKeepsLocks(w, es);
    hide Run, Step;
    var v := Run(w, es);
    assert Held(v, d) && (!e.Tick? ==> Holds(v, e.p));
    FreedInStep(v, e, d);
  }

  lemma FreedInStep(v: World, e: Event, d: string)
    requires d in v.locks && Held(v, d) && (!e.Tick? ==> Holds(v, e.p))
    ensures var v' := Step(v, e);
            var p := v.locks[d];
            (d !in v'.locks <==>
               (e == Recheck(p, true) && At(v, p, Locked) && !v.procs[p].forced
                && d in v.certs && v.certs[d].notAfter - v.clock > 30 * 24 * 3600)
               || (e == Launch(p, false) && At(v, p, Ready))
               || (e == Finish(p) && At(v, p, Returned)))
            && (d in v'.locks ==> v'.locks[d] == p)
            && (At(v', p, Done) <==> d !in v'.locks)
  {}

  /** The time that passes in a run. */
  function Waited(es: seq<Event>): nat {
    if es == [] then 0
    else Waited(es[..|es| - 1]) + (if es[|es| - 1].Tick? then es[|es| - 1].seconds else 0)
  }

  /** Every look lies in the past of the run. */
  lemma {:induction false} LooksArePast(w: World, es: seq<Event>, p: nat)
    requires Initial(w)
    ensures w.clock <= Run(w, es).clock == w.clock + Waited(es)
    ensures p in Run(w, es).procs ==> w.clock <= Run(w, es).procs[p].checkedAt <= Run(w, es).clock
  {
    hide Step;
    if es != [] {
      LooksArePast(w, es[..|es| - 1], p);
      LookIsNow(Run(w, es[..|es| - 1]), es[|es| - 1], p);
    }
  }

  lemma LookIsNow(w: World, e: Event, p: nat)
    ensures Step(w, e).clock == w.clock + if e.Tick? then e.seconds else 0
    ensures p in Step(w, e).procs ==>
              Step(w, e).procs[p].checkedAt == w.clock
              || (p in w.procs && Step(w, e).procs[p].checkedAt == w.procs[p].checkedAt)
  {}

  // ---------------------------------------------------------------- a second look that cannot read

  lemma {:induction false} RunFirst(w: World, e: Event, es: seq<Event>)
    ensures Run(w, [e] + es) == Run(Step(w, e), es)
  {
    if es == [] {
      assert [e] + es == [e] && [e][..0] == [];
      assert Run(w, [e]) == Step(Run(w, []), e);
    } else {
      var all := [e] + es;
      assert all[..|all| - 1] == [e] + es[..|es| - 1];
      RunFirst(w, e, es[..|es| - 1]);
    }
  }

  lemma {:induction false} RunSplit(w: World, es: seq<Event>, fs: seq<Event>)
    ensures Run(w, es + fs) == Run(Run(w, es), fs)
  {
    if fs == [] {
      assert es + fs == es;
    } else {
      assert (es + fs)[..|es + fs| - 1] == es + fs[..|fs| - 1];
      RunSplit(w, es, fs[..|fs| - 1]);
    }
  }

  /** One renewal from the lock to the end. */
  function Renewal(p: nat, readable: bool, c: Cert): seq<Event> {
    [Acquire(p), Recheck(p, readable), Launch(p, true), Exit(p, Some(c)), Finish(p)]
  }

  /** It goes through whenever the lock is free and the second look does not stop it. */
  lemma RenewalGoesThrough(w: World, p: nat, readable: bool, c: Cert)
    requires At(w, p, Waiting) && w.procs[p].dir !in w.locks && w.procs[p].dir in w.certs
    requires !readable || w.procs[p].forced || Due(w.certs[w.procs[p].dir], w.clock)
    ensures var d := w.procs[p].dir;
            Run(w, Renewal(p, readable, c)) ==
            World(w.clock, w.certs[d := c], w.locks,
                  w.procs[p := Proc(d, w.procs[p].forced, Done, w.clock, readable)],
                  w.installs[d := Installs(w, d) + [Install(c, w.procs[p].forced, w.clock, readable)]])
  {
    hide Step, Run, Due;
    var w2 := LockedAndLooked(w, p, readable);
    var w4 := Launched(w2, p, c);
    var w5 := Finished(w4, p);
    assert w5.procs == w.procs[p := Proc(w.procs[p].dir, w.procs[p].forced, Done, w.clock, readable)];
    assert w5.locks == w.locks;
    FiveSteps(w, Acquire(p), Recheck(p, readable), Launch(p, true), Exit(p, Some(c)), Finish(p));
  }

  lemma FiveSteps(w: World, a: Event, b: Event, c: Event, d: Event, e: Event)
    ensures Run(w, [a, b, c, d, e]) == Step(Step(Step(Step(Step(w, a), b), c), d), e)
  {
    hide Step;
    assert [a, b, c, d, e] == [a] + ([b] + ([c] + ([d] + ([e] + []))));
    RunFirst(w, a, [b] + ([c] + ([d] + ([e] + []))));
    RunFirst(Step(w, a), b, [c] + ([d] + ([e] + [])));
    RunFirst(Step(Step(w, a), b), c, [d] + ([e] + []));
    RunFirst(Step(Step(Step(w, a), b), c), d, [e] + []);
    RunFirst(Step(Step(Step(Step(w, a), b), c), d), e, []);
  }

  lemma LockedAndLooked(w: World, p: nat, readable: bool) returns (v: World)
    requires At(w, p, Waiting) && w.procs[p].dir !in w.locks && w.procs[p].dir in w.certs
    requires !readable || w.procs[p].forced || Due(w.certs[w.procs[p].dir], w.clock)
    ensures v == Step(Step(w, Acquire(p)), Recheck(p, readable))
    ensures v == w.(locks := w.locks[w.procs[p].dir := p],
                    procs := w.procs[p := Proc(w.procs[p].dir, w.procs[p].forced, Ready, w.clock, readable)])
  {
    v := Step(Step(w, Acquire(p)), Recheck(p, readable));
    assert v.procs == w.procs[p := Proc(w.procs[p].dir, w.procs[p].forced, Ready, w.clock, readable)];
  }

  lemma Launched(w: World, p: nat, c: Cert) returns (v: World)
    requires At(w, p, Ready)
    ensures v == Step(Step(w, Launch(p, true)), Exit(p, Some(c)))
    ensures var proc := w.procs[p];
            v == w.(procs := w.procs[p := proc.(pc := Returned)], certs := w.certs[proc.dir := c],
                    installs := w.installs[proc.dir := Installs(w, proc.dir)
                                                       + [Install(c, proc.forced, proc.checkedAt, proc.readable)]])
  {
    v := Step(Step(w, Launch(p, true)), Exit(p, Some(c)));
    assert v.procs == w.procs[p := w.procs[p].(pc := Returned)];
  }

  lemma Finished(w: World, p: nat) returns (v: World)
    requires At(w, p, Returned)
    ensures v == Step(w, Finish(p))
    ensures v == w.(procs := w.procs[p := w.procs[p].(pc := Done)], locks := w.locks - {w.procs[p].dir})
  {
    v := Step(w, Finish(p));
  }

  /** The exception is real.  Two ordinary renewals of a due certificate start together; the first installs
      a certificate that is not due, the second cannot read it at its second look and replaces it at once. */
  lemma UnreadableRecheckProceeds(d: string, due: Cert, renewed: Cert, other: Cert, now: int)
    requires Due(due, now) && !Due(renewed, now)
    ensures var w := World(now, map[d := due], map[], map[], map[]);
            var es := [Begin(0, d, false), Begin(1, d, false)] + Renewal(0, true, renewed) + Renewal(1, false, other);
            Initial(w)
            && Installs(Run(w, es), d) == [Install(renewed, false, now, true), Install(other, false, now, false)]
            && !Due(Installs(Run(w, es), d)[0].cert, Installs(Run(w, es), d)[1].checkedAt)
  {
    var w := World(now, map[d := due], map[], map[], map[]);
    var begin := [Begin(0, d, false), Begin(1, d, false)];
    var v := World(now, map[d := due], map[],
                   map[0 := Proc(d, false, Waiting, now, true), 1 := Proc(d, false, Waiting, now, true)], map[]);
    assert Run(w, begin) == v by {
      assert begin == [begin[0]] + ([begin[1]] + []);
      RunFirst(w, begin[0], [begin[1]] + []);
      RunFirst(Step(w, begin[0]), begin[1], []);
    }
    hide Step;
    RenewalGoesThrough(v, 0, true, renewed);
    var v' := Run(v, Renewal(0, true, renewed));
    RenewalGoesThrough(v', 1, false, other);
    RunSplit(w, begin, Renewal(0, true, renewed));
    RunSplit(w, begin + Renewal(0, true, renewed), Renewal(1, false, other));
  }
}
