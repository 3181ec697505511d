/** Offering a new agent version to a node: retry, back-off, abandon, completion. */
module UpgradePush {

  import opened Prelude
  import opened SemVer

  const BACKOFF := 600
  const MAX_PUSHES := 5

  /** One upgrade job; times are in seconds. */
  datatype Job = Job(target: string, triggered: nat, completed: Option<nat>, retries: nat)

  type Jobs = map<string, Job>

  datatype State = State(latest: string, jobs: Jobs)

  // ---------------------------------------------------------------- specification

  /** What the version in a heartbeat compares equal to: the latest one, the one of the node's job. */
  datatype Match = Match(latest: bool, target: bool)

  function Reported(s: State, node: string, version: string): Match {
    Match(s.latest == "" || Cmp(s.latest, version) == 0,
          node in s.jobs && Cmp(s.jobs[node].target, version) == 0)
  }

  /** A heartbeat is offered the update: its version differs, and no job for this very version is
      complete, too recent, or used up. */
  predicate Offers(s: State, node: string, m: Match, now: nat) {
    !m.latest
    && (node in s.jobs && s.jobs[node].target == s.latest ==>
          s.jobs[node].completed == None
          && now - s.jobs[node].triggered >= BACKOFF
          && s.jobs[node].retries < MAX_PUSHES)
  }

  function Pushed(s: State, node: string, now: nat): State {
    var retries := if node in s.jobs then s.jobs[node].retries else 0;
    s.(jobs := s.jobs[node := Job(s.latest, now, None, retries + 1)])
  }

  /** The job is marked complete when the node reports the version it was sent. */
  predicate Finishes(s: State, node: string, m: Match) {
    node in s.jobs && s.jobs[node].completed == None && m.target
  }

  /** Used up: given up silently until the version is set again. */
  predicate Abandoned(s: State, node: string) {
    node in s.jobs && s.jobs[node].target == s.latest && s.jobs[node].retries >= MAX_PUSHES
  }

  function HeartbeatStep(s: State, node: string, m: Match, now: nat, binary: bool): (State, bool) {
    if Offers(s, node, m, now) then
      if binary then (Pushed(s, node, now), true) else (s, false)
    else if !m.latest && Abandoned(s, node) then (s, false)
    else if Finishes(s, node, m) then
      (s.(jobs := s.jobs[node := s.jobs[node].(completed := Some(now))]), false)
    else (s, false)
  }

  predicate GivenUp(j: Job) { j.completed == None && j.retries >= MAX_PUSHES }

  function SetVersionStep(s: State, v: string): State {
    if v != s.latest && s.latest != "" then State(v, map[])
    else if v == s.latest then State(v, map n | n in s.jobs && !GivenUp(s.jobs[n]) :: s.jobs[n])
    else State(v, s.jobs)
  }

  function UploadStep(s: State, v: string): State {
    State(v, if s.latest != v then map[] else s.jobs)
  }

  // ---------------------------------------------------------------- the stored agent configuration

  class AgentConfig {
    var latest: string
    var jobs: Jobs

    function View(): State reads this { State(latest, jobs) }

    constructor ()
      ensures View() == State("", map[])
    {
      latest, jobs := "", map[];
    }

    /** The upgrade section of handleHeartbeat for a node whose platform and version are known;
        `binary` says that the manifest names a file for the platform and that it exists. */
    method Heartbeat(node: string, version: string, now: nat, binary: bool) returns (push: Option<string>)
      modifies this
      ensures var m := Reported(old(View()), node, version);
              var (s, offered) := HeartbeatStep(old(View()), node, m, now, binary);
              View() == s && push == if offered then Some(latest) else None
    {
      hide Cmp;
      push := None;
      var same := true;
      if latest != "" {
        var c := CompareSemVer(latest, version);
        same := c == 0;
      }
      if same {
        Complete(node, version, now);
        return;
      }
      var shouldPush, abandon := true, false;
      if node in jobs {
        var job := jobs[node];
        if job.completed != None && job.target == latest { shouldPush := false; }
        if job.target == latest && now - job.triggered < BACKOFF { shouldPush := false; }
        if job.target == latest && job.retries >= MAX_PUSHES {
          shouldPush := false;
          abandon := true;
        }
      }
      if abandon { return; }
      if !shouldPush { Complete(node, version, now); }
      if shouldPush && binary {
        push := Some(latest);
        var job := if node in jobs then jobs[node] else Job("", 0, None, 0);
        job := job.(target := latest, triggered := now, retries := job.retries + 1, completed := None);
        jobs := jobs[node := job];
      }
    }

    method Complete(node: string, version: string, now: nat)
      modifies this`jobs
      ensures jobs == if Finishes(old(View()), node, Reported(old(View()), node, version))
                      then old(jobs)[node := old(jobs)[node].(completed := Some(now))] else old(jobs)
    {
      if node in jobs && jobs[node].completed == None {
        var c := CompareSemVer(jobs[node].target, version);
        if c == 0 { jobs := jobs[node := jobs[node].(completed := Some(now))]; }
      }
    }

    /** handleSetAgentVersion: a new version clears everything, the same version revives the jobs that
        were given up. */
    method SetVersion(v: string)
      modifies this
      ensures View() == SetVersionStep(old(View()), v)
    {
      var prev := latest;
      if v != prev && prev != "" {
        jobs := map[];
      } else if v == prev {
        var pending := jobs.Keys;
        while pending != {}
          invariant pending <= old(jobs).Keys && latest == old(latest)
          invariant forall n :: n in jobs <==> n in old(jobs) && (n in pending || !GivenUp(old(jobs)[n]))
          invariant forall n :: n in jobs ==> jobs[n] == old(jobs)[n]
        {
          var n :| n in pending;
          if jobs[n].completed == None && jobs[n].retries >= MAX_PUSHES { jobs := jobs - {n}; }
          pending := pending - {n};
        }
      }
      latest := v;
    }

    /** The version change at the end of handleUploadAgentBinary. */
    method Upload(v: string)
      modifies this
      ensures View() == UploadStep(old(View()), v)
    {
      if latest != v { jobs := map[]; }
      latest := v;
    }
  }

  // ---------------------------------------------------------------- runs

  /** Time passes between events; pushes[n] lists when node n was pushed to since its job began. */
  datatype World = World(clock: nat, s: State, pushes: map<string, seq<nat>>)

  datatype Event =
    | Heartbeat(wait: nat, node: string, version: string, binary: bool)
    | SetVersion(wait: nat, v: string)
    | Upload(wait: nat, v: string)

  function Kept(pushes: map<string, seq<nat>>, jobs: Jobs): map<string, seq<nat>> {
    map n | n in pushes && n in jobs :: pushes[n]
  }

  function Offered(w: World, e: Event): bool {
    e.Heartbeat?
    && HeartbeatStep(w.s, e.node, Reported(w.s, e.node, e.version), w.clock + e.wait, e.binary).1
  }

  function PushLog(w: World, node: string): seq<nat> {
    if node in w.pushes then w.pushes[node] else []
  }

  function HeartbeatWorld(w: World, node: string, m: Match, now: nat, binary: bool): World {
    var (s, offered) := HeartbeatStep(w.s, node, m, now, binary);
    World(now, s, if offered then w.pushes[node := PushLog(w, node) + [now]] else w.pushes)
  }

  function Step(w: World, e: Event): World {
    var now := w.clock + e.wait;
    match e
    case Heartbeat(_, node, version, binary) =>
      HeartbeatWorld(w, node, Reported(w.s, node, version), now, binary)
    case SetVersion(_, v) =>
      var s := SetVersionStep(w.s, v);
      World(now, s, Kept(w.pushes, s.jobs))
    case Upload(_, v) =>
      var s := UploadStep(w.s, v);
      World(now, s, Kept(w.pushes, s.jobs))
  }

  function Run(w: World, es: seq<Event>): World {
    if es == [] then w else Step(Run(w, es[..|es| - 1]), es[|es| - 1])
  }

  const Start := World(0, State("", map[]), map[])

  /** The bookkeeping of one job agrees with the pushes actually made for it. */
  predicate JobOk(j: Job, latest: string, pushes: seq<nat>, clock: nat) {
    j.target == latest && latest != ""
    && 1 <= j.retries <= MAX_PUSHES && |pushes| == j.retries
    && pushes[|pushes| - 1] == j.triggered <= clock
    && forall i :: 0 < i < |pushes| ==> pushes[i] - pushes[i - 1] >= BACKOFF
  }

  predicate Inv(w: World) {
    w.pushes.Keys == w.s.jobs.Keys
    && forall n :: n in w.s.jobs ==> JobOk(w.s.jobs[n], w.s.latest, w.pushes[n], w.clock)
  }

  lemma PushedKeepsInv(w: World, node: string, now: nat)
    requires Inv(w) && w.s.latest != "" && w.clock <= now
    requires node in w.s.jobs ==> now - w.s.jobs[node].triggered >= BACKOFF && w.s.jobs[node].retries < MAX_PUSHES
    ensures Inv(World(now, Pushed(w.s, node, now), w.pushes[node := PushLog(w, node) + [now]]))
  {}

  lemma IdleKeepsInv(w: World, jobs: Jobs, now: nat)
    requires Inv(w) && w.clock <= now && jobs.Keys == w.s.jobs.Keys
    requires forall n :: n in jobs ==> jobs[n].(completed := None) == w.s.jobs[n].(completed := None)
    ensures Inv(World(now, State(w.s.latest, jobs), w.pushes))
  {}

  lemma HeartbeatKeepsInv(w: World, node: string, m: Match, now: nat, binary: bool)
    requires Inv(w) && w.clock <= now
    requires w.s.latest == "" ==> m.latest
    ensures Inv(HeartbeatWorld(w, node, m, now, binary))
  {
    if Offers(w.s, node, m, now) && binary {
      PushedKeepsInv(w, node, now);
    } else {
      IdleKeepsInv(w, HeartbeatWorld(w, node, m, now, binary).s.jobs, now);
    }
  }

  lemma VersionKeepsInv(w: World, e: Event)
    requires Inv(w) && !e.Heartbeat?
    ensures Inv(Step(w, e))
  {}

  lemma StepKeepsInv(w: World, e: Event)
    requires Inv(w)
    ensures Inv(Step(w, e))
  {
    hide Cmp, Inv, HeartbeatWorld, Kept;
    if e.Heartbeat? {
      HeartbeatKeepsInv(w, e.node, Reported(w.s, e.node, e.version), w.clock + e.wait, e.binary);
    } else {
      VersionKeepsInv(w, e);
    }
  }

  lemma {:induction false} RunKeepsInv(es: seq<Event>)
    ensures Inv(Run(Start, es))
  {
    if es != [] {
      RunKeepsInv(es[..|es| - 1]);
      StepKeepsInv(Run(Start, es[..|es| - 1]), es[|es| - 1]);
    }
  }

  /** Bounds.  After every run each job targets the latest version, counts exactly the pushes made in
      its lifetime, never more than five, and those lie at least ten minutes apart. */
  lemma PushesAreBounded(es: seq<Event>, n: string, i: nat, j: nat)
    requires n in Run(Start, es).s.jobs
    ensures var w := Run(Start, es);
            n in w.pushes && w.s.jobs[n].target == w.s.latest
            && w.s.jobs[n].retries == |w.pushes[n]| <= MAX_PUSHES
            && (i < j < |w.pushes[n]| ==> w.pushes[n][j] - w.pushes[n][i] >= (j - i) * BACKOFF)
  {
    RunKeepsInv(es);
    var w := Run(Start, es);
    if i < j < |w.pushes[n]| { Spread(w.pushes[n], i, j); }
  }

  lemma {:induction false} Spread(ts: seq<nat>, i: nat, j: nat)
    requires i <= j < |ts| && forall k :: 0 < k < |ts| ==> ts[k] - ts[k - 1] >= BACKOFF
    ensures ts[j] - ts[i] >= (j - i) * BACKOFF
  {
    if i < j { Spread(ts, i, j - 1); }
  }

  /** What is pushed is always the latest version, to a node that reports another one. */
  lemma OnlyOutdatedNodesArePushed(es: seq<Event>, e: Event)
    requires Offered(Run(Start, es), e)
    ensures var w := Run(Start, es); var w' := Step(w, e);
            e.Heartbeat? && w'.s.latest == w.s.latest != "" && Cmp(w.s.latest, e.version) != 0 && e.binary
            && e.node in w'.s.jobs && w'.s.jobs[e.node].target == w.s.latest
  {}

  /** When an update is offered, over every run: a node that reports another version than the latest one and
      whose platform has a binary gets it, unless it has a job that is complete, less than ten minutes old, or
      was pushed five times already.  The push is counted, and timed from now. */
  lemma OfferedExactly(es: seq<Event>, wait: nat, node: string, version: string, binary: bool)
    ensures var w := Run(Start, es);
            var now := w.clock + wait;
            var e := Heartbeat(wait, node, version, binary);
            Offered(w, e) <==>
              binary && w.s.latest != "" && Cmp(w.s.latest, version) != 0
              && (node !in w.s.jobs
                  || (w.s.jobs[node].completed == None && now - w.s.jobs[node].triggered >= 600
                      && w.s.jobs[node].retries < 5))
    ensures var w := Run(Start, es);
            var e := Heartbeat(wait, node, version, binary);
            Offered(w, e) ==>
              Step(w, e).s == State(w.s.latest, w.s.jobs[node := Job(w.s.latest, w.clock + wait, None,
                                      if node in w.s.jobs then w.s.jobs[node].retries + 1 else 1)])
  {
    hide Cmp, Run;
    RunKeepsInv(es);
    var w := Run(Start, es);
    assert node in w.s.jobs ==> w.s.jobs[node].target == w.s.latest;
  }

  /** Setting the version in force again revives exactly the jobs that were given up - five pushes and not
      complete - by forgetting them: their nodes are offered the update again at once. */
  lemma SettingAgainRevives(es: seq<Event>, node: string, wait: nat, later: nat, version: string)
    requires node in Run(Start, es).s.jobs
    ensures var w := Run(Start, es);
            var w' := Step(w, SetVersion(wait, w.s.latest));
            var givenUp := w.s.jobs[node].completed == None && w.s.jobs[node].retries == 5;
            w'.s.latest == w.s.latest
            && (node in w'.s.jobs <==> !givenUp) && (node in w'.s.jobs ==> w'.s.jobs[node] == w.s.jobs[node])
            && (givenUp && Cmp(w.s.latest, version) != 0 ==> Offered(w', Heartbeat(later, node, version, true)))
  {
    hide Cmp, Run;
    RunKeepsInv(es);
  }

  /** Any other version, set or uploaded, starts over: no job is left, and every node that reports something
      else is offered it. */
  lemma NewVersionStartsOver(es: seq<Event>, e: Event, v: string, wait: nat, node: string, version: string)
    requires v != "" && v != Run(Start, es).s.latest && (e == SetVersion(wait, v) || e == Upload(wait, v))
    ensures var w' := Step(Run(Start, es), e);
            w'.s == State(v, map[])
            && (Cmp(v, version) != 0 ==> Offered(w', Heartbeat(wait, node, version, true)))
  {
    hide Cmp, Run;
    RunKeepsInv(es);
    var w := Run(Start, es);
    assert w.s.latest == "" ==> w.s.jobs == map[] by {
      if w.s.latest == "" { assert forall n :: n !in w.s.jobs; }
    }
  }

  /** Uploading a binary of the version in force keeps every job. */
  lemma SameUploadKeepsJobs(w: World, wait: nat)
    ensures Step(w, Upload(wait, w.s.latest)).s == w.s
  {}

  predicate KeepsVersion(e: Event, v: string) {
    match e
    case Heartbeat(_, _, _, _) => true
    case SetVersion(_, v') => v' == v
    case Upload(_, v') => v' == v
  }

  lemma CompletedIsLeftAlone(w: World, node: string, m: Match, now: nat, binary: bool, n: string)
    requires Inv(w) && n in w.s.jobs && w.s.jobs[n].completed.Some?
    ensures var (s, offered) := HeartbeatStep(w.s, node, m, now, binary);
            s.latest == w.s.latest && n in s.jobs && s.jobs[n] == w.s.jobs[n] && (offered ==> node != n)
  {
    assert w.s.jobs[n].target == w.s.latest;
  }

  lemma CompletedStaysCompleted(w: World, e: Event, n: string)
    requires Inv(w) && n in w.s.jobs && w.s.jobs[n].completed.Some? && KeepsVersion(e, w.s.latest)
    ensures Inv(Step(w, e)) && Step(w, e).s.latest == w.s.latest
    ensures n in Step(w, e).s.jobs && Step(w, e).s.jobs[n] == w.s.jobs[n]
    ensures Offered(w, e) ==> e.node != n
  {
    hide Cmp, Inv, HeartbeatStep, Kept;
    StepKeepsInv(w, e);
    if e.Heartbeat? {
      CompletedIsLeftAlone(w, e.node, Reported(w.s, e.node, e.version), w.clock + e.wait, e.binary, n);
    }
  }

  lemma {:induction false} StaysCompleted(w: World, n: string, more: seq<Event>)
    requires Inv(w) && n in w.s.jobs && w.s.jobs[n].completed.Some?
    requires forall i :: 0 <= i < |more| ==> KeepsVersion(more[i], w.s.latest)
    ensures var w' := Run(w, more);
            Inv(w') && w'.s.latest == w.s.latest && n in w'.s.jobs && w'.s.jobs[n] == w.s.jobs[n]
  {
    if more != [] {
      var m := |more| - 1;
      StaysCompleted(w, n, more[..m]);
      CompletedStaysCompleted(Run(w, more[..m]), more[m], n);
    }
  }

  /** Completion is final: whatever the node reports afterwards, and however often the same version is
      set again, it is not pushed to until the version changes. */
  lemma CompletionIsFinal(es: seq<Event>, n: string, more: seq<Event>, next: Event)
    requires var w := Run(Start, es); n in w.s.jobs && w.s.jobs[n].completed.Some?
    requires forall i :: 0 <= i < |more| ==> KeepsVersion(more[i], Run(Start, es).s.latest)
    ensures Offered(Run(Run(Start, es), more), next) ==> next.node != n
  {
    RunKeepsInv(es);
    StaysCompleted(Run(Start, es), n, more);
  }

  /** A job that still waits is completed by the first heartbeat that reports the latest version, and
      only by such a heartbeat: the second completion test in the handler never fires. */
  lemma CompletedExactlyOnArrival(es: seq<Event>, wait: nat, n: string, version: string, binary: bool)
    requires n in Run(Start, es).s.jobs && Run(Start, es).s.jobs[n].completed == None
    ensures var w := Run(Start, es); var w' := Step(w, Heartbeat(wait, n, version, binary));
            n in w'.s.jobs && (w'.s.jobs[n].completed.Some? <==> Cmp(w.s.latest, version) == 0)
  {
    RunKeepsInv(es);
  }
}
