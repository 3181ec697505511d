/** Which directory acme.sh may use as its home, and the environment it is started with. */
module AcmeHome {

  import opened Prelude

  /** A cleaned absolute path, as its segments. */
  type Path = seq<string>

  /** A configured location after trimming. */
  datatype Raw = Unset | Relative(text: string) | Abs(path: Path)

  datatype Link = Link(isSymlink: bool, uid: int)
  datatype Entry = Entry(isDir: bool, uid: int, shared: bool)

  /** What the file system answers; a missing key is a failed call.  shared: writable by group or other. */
  datatype Probe = Probe(lstat: map<Path, Link>, stat: map<Path, Entry>, resolve: map<Path, Path>,
                         count: map<Path, nat>, uid: int, hasCerts: bool, tmpLike: seq<Path>)

  datatype Source = Env | BinaryDir | HomeDefault

  datatype Candidate = Candidate(source: Source, raw: Raw, explicit: bool)

  datatype Decision = Use(home: Path) | Skip | Fatal

  datatype Note = Unusable(source: Source) | Judged(source: Source, decision: Decision) | Caveat(dir: Path) | GaveUp

  const DEFAULT_TMP: seq<Path> := [["tmp"], ["var", "tmp"], ["dev", "shm"], ["run"]]

  // ---------------------------------------------------------------- the checks

  predicate Within(dir: Path, top: Path) { dir == top || (top != [] && top <= dir) }

  predicate Public(p: Probe, dir: Path) {
    var tmp := if p.tmpLike == [] then DEFAULT_TMP else p.tmpLike;
    exists d :: d in tmp && Within(dir, d)
  }

  predicate LinkAt(p: Probe, dir: Path, i: nat)
    requires i <= |dir|
  {
    dir[..i] in p.lstat && p.lstat[dir[..i]].isSymlink
  }

  predicate ForeignLink(p: Probe, dir: Path) {
    exists i :: 0 < i <= |dir| && LinkAt(p, dir, i) && p.lstat[dir[..i]].uid != p.uid
  }

  predicate OwnLink(p: Probe, dir: Path) {
    exists i :: 0 < i <= |dir| && LinkAt(p, dir, i) && p.lstat[dir[..i]].uid == p.uid
  }

  predicate PositionOk(p: Probe, dir: Path) {
    !ForeignLink(p, dir) && !(OwnLink(p, dir) && dir in p.resolve && Public(p, p.resolve[dir]))
  }

  predicate IsDir(p: Probe, dir: Path) { dir in p.stat && p.stat[dir].isDir }

  predicate SelfCheck(p: Probe, dir: Path) {
    (dir + ["account.conf"] in p.stat && !p.stat[dir + ["account.conf"]].isDir) || IsDir(p, dir + ["ca"])
  }

  predicate Healthy(p: Probe, dir: Path) {
    !IsDir(p, dir + [".git"])
    && (dir in p.stat ==> p.stat[dir].uid == p.uid && !p.stat[dir].shared)
    && !ForeignLink(p, dir)
  }

  predicate Empty(p: Probe, dir: Path) { dir in p.count && p.count[dir] == 0 }

  /** A location acme.sh would still have to initialise. */
  predicate Uninitialised(p: Probe, dir: Path) { dir !in p.stat || (IsDir(p, dir) && Empty(p, dir)) }

  // ---------------------------------------------------------------- one candidate

  function Refuse(c: Candidate): Decision { if c.explicit then Fatal else Skip }

  /** decideHomeCandidate, branch by branch. */
  function Decide(p: Probe, c: Candidate): Decision {
    if !c.raw.Abs? then Skip
    else
      var dir := c.raw.path;
      if !PositionOk(p, dir) then Refuse(c)
      else if dir !in p.stat then (if c.explicit && !p.hasCerts then Use(dir) else Skip)
      else if !p.stat[dir].isDir then Skip
      else if Empty(p, dir) then
        if !c.explicit then Skip
        else if !Healthy(p, dir) then Fatal
        else if !p.hasCerts then Use(dir) else Skip
      else if !SelfCheck(p, dir) then Refuse(c)
      else if !Healthy(p, dir) then Refuse(c)
      else if Public(p, dir) && !c.explicit then Skip
      else Use(dir)
  }

  /** Exactly what is adopted: a safely placed directory that is either a healthy, recognised home, or
      - for an explicit setting on a host without certificates - absent or empty and healthy. */
  lemma AdoptedExactlyWhen(p: Probe, c: Candidate)
    ensures Decide(p, c).Use? <==>
              c.raw.Abs? && PositionOk(p, c.raw.path) &&
              if Uninitialised(p, c.raw.path)
              then c.explicit && !p.hasCerts && (c.raw.path in p.stat ==> Healthy(p, c.raw.path))
              else IsDir(p, c.raw.path) && SelfCheck(p, c.raw.path) && Healthy(p, c.raw.path)
                   && (c.explicit || !Public(p, c.raw.path))
    ensures Decide(p, c).Use? ==> Decide(p, c).home == c.raw.path
  {}

  /** Only an explicit setting can stop the search. */
  lemma FatalIsExplicit(p: Probe, c: Candidate)
    ensures Decide(p, c) == Fatal ==>
              c.explicit && c.raw.Abs? &&
              (!PositionOk(p, c.raw.path) || !Healthy(p, c.raw.path) || !SelfCheck(p, c.raw.path))
  {}

  /** Exactly when an explicit setting is refused, from the checks alone: it names an absolute path that is
      badly placed, or an existing directory that is unhealthy, or one that holds something but is no home of
      acme.sh.  Whatever is neither adopted nor refused is passed over. */
  lemma RefusedExactlyWhen(p: Probe, c: Candidate)
    ensures Decide(p, c).Fatal? <==>
              c.explicit && c.raw.Abs?
              && var dir := c.raw.path;
                 !PositionOk(p, dir)
                 || (dir in p.stat && p.stat[dir].isDir
                     && if dir in p.count && p.count[dir] == 0 then !Healthy(p, dir)
                        else !SelfCheck(p, dir) || !Healthy(p, dir))
    ensures !c.explicit ==> !Decide(p, c).Fatal?
  {}

  /** What the checks look at: every element of the path for links, whose they are and where they lead; the
      directory's owner and mode; a source checkout; the two signs of a home; the directories everybody can
      write to. */
  lemma ChecksLookAt(p: Probe, dir: Path)
    ensures PositionOk(p, dir) <==>
              !(exists i :: 0 < i <= |dir| && Linked(p, dir[..i]) && p.lstat[dir[..i]].uid != p.uid)
              && !((exists i :: 0 < i <= |dir| && Linked(p, dir[..i]) && p.lstat[dir[..i]].uid == p.uid)
                   && dir in p.resolve && Public(p, p.resolve[dir]))
    ensures Healthy(p, dir) <==>
              (dir + [".git"] in p.stat ==> !p.stat[dir + [".git"]].isDir)
              && (dir in p.stat ==> p.stat[dir].uid == p.uid && !p.stat[dir].shared)
              && !(exists i :: 0 < i <= |dir| && Linked(p, dir[..i]) && p.lstat[dir[..i]].uid != p.uid)
    ensures SelfCheck(p, dir) <==>
              (dir + ["account.conf"] in p.stat && !p.stat[dir + ["account.conf"]].isDir)
              || (dir + ["ca"] in p.stat && p.stat[dir + ["ca"]].isDir)
  {
    assert forall i :: 0 < i <= |dir| ==> LinkAt(p, dir, i) == Linked(p, dir[..i]);
  }

  predicate Linked(p: Probe, path: Path) { path in p.lstat && p.lstat[path].isSymlink }

  /** The public directories by default, and the rule for any configured list. */
  lemma PublicExactly(p: Probe, dir: Path)
    ensures p.tmpLike == [] ==>
              (Public(p, dir) <==> ["tmp"] <= dir || ["var", "tmp"] <= dir || ["dev", "shm"] <= dir || ["run"] <= dir)
    ensures p.tmpLike != [] ==>
              (Public(p, dir) <==> exists top :: top in p.tmpLike && (dir == top || (top != [] && top <= dir)))
  {
    if p.tmpLike == [] {
      var a: Path, b: Path, c: Path, d: Path := ["tmp"], ["var", "tmp"], ["dev", "shm"], ["run"];
      assert DEFAULT_TMP == [a, b, c, d];
      assert Within(dir, a) <==> a <= dir;
      assert Within(dir, b) <==> b <= dir;
      assert Within(dir, c) <==> c <= dir;
      assert Within(dir, d) <==> d <= dir;
      hide Within;
      assert forall top :: top in DEFAULT_TMP <==> top == a || top == b || top == c || top == d;
    } else {
      assert forall top :: top in p.tmpLike ==> (Within(dir, top) <==> dir == top || (top != [] && top <= dir));
    }
  }

  // ---------------------------------------------------------------- the search

  function Parent(path: Path): Path { if path == [] then [] else path[..|path| - 1] }

  function FromBinary(p: Probe, acmeSh: Raw): seq<Candidate> {
    if acmeSh.Abs? && acmeSh.path in p.resolve
    then [Candidate(BinaryDir, Abs(Parent(p.resolve[acmeSh.path])), false)] else []
  }

  function FromHome(home: Raw): seq<Candidate> {
    if home.Abs? then [Candidate(HomeDefault, Abs(home.path + [".acme.sh"]), false)] else []
  }

  /** The candidates in order of priority. */
  function Candidates(p: Probe, acmeSh: Raw, env: Raw, home: Raw): seq<Candidate> {
    [Candidate(Env, env, true)] + FromBinary(p, acmeSh) + FromHome(home)
  }

  /** The candidate the search stops at, or the number of candidates. */
  function Decisive(p: Probe, cands: seq<Candidate>): (n: nat)
    ensures n <= |cands|
    ensures forall i :: 0 <= i < n ==> Decide(p, cands[i]) == Skip
    ensures n < |cands| ==> Decide(p, cands[n]) != Skip
  {
    if cands == [] then 0
    else if Decide(p, cands[0]) != Skip then 0
    else 1 + Decisive(p, cands[1..])
  }

  function Chosen(p: Probe, cands: seq<Candidate>): Option<Path> {
    var n := Decisive(p, cands);
    if n < |cands| && Decide(p, cands[n]).Use? then Some(Decide(p, cands[n]).home) else None
  }

  function FirstShared(p: Probe, dir: Path, i: nat): (r: Option<Path>)
    ensures r.None? <==> forall k :: i <= k < |dir| && dir[..k] in p.stat ==> !p.stat[dir[..k]].shared
    decreases |dir| - i
  {
    if i >= |dir| then None
    else if dir[..i] in p.stat && p.stat[dir[..i]].shared then Some(dir[..i])
    else FirstShared(p, dir, i + 1)
  }

  /** How many candidates are looked at: those skipped and the decisive one. */
  function Looked(p: Probe, cands: seq<Candidate>): (n: nat)
    ensures n <= |cands|
  {
    var n := Decisive(p, cands);
    if n < |cands| then n + 1 else n
  }

  function Judgements(p: Probe, cands: seq<Candidate>): (r: seq<Note>) {
    seq(Looked(p, cands), i requires 0 <= i < |cands| => Judged(cands[i].source, Decide(p, cands[i])))
  }

  function Preface(p: Probe, acmeSh: Raw, home: Raw): seq<Note> {
    (if !acmeSh.Unset? && FromBinary(p, acmeSh) == [] then [Unusable(BinaryDir)] else [])
    + (if home.Relative? then [Unusable(HomeDefault)] else [])
  }

  /** Warnings about the adopted home; they are computed after the choice. */
  function Caveats(p: Probe, home: Option<Path>): seq<Path> {
    if home.None? then []
    else
      match FirstShared(p, home.value, 1)
      case None => []
      case Some(d) => [d]
  }

  function Closing(p: Probe, home: Option<Path>): seq<Note> {
    if home.None? then [GaveUp]
    else if Caveats(p, home) == [] then [] else [Caveat(Caveats(p, home)[0])]
  }

  lemma JudgementAt(p: Probe, cands: seq<Candidate>, i: nat)
    requires i < Looked(p, cands)
    ensures var all := Judgements(p, cands);
            |all| == Looked(p, cands) && all[..i + 1] == all[..i] + [Judged(cands[i].source, Decide(p, cands[i]))]
  {}

  lemma AllLooked(p: Probe, cands: seq<Candidate>)
    ensures |Judgements(p, cands)| == Looked(p, cands)
  {}

  /** The candidates and the notes on the settings that give none. */
  method Gather(p: Probe, acmeSh: Raw, env: Raw, homeEnv: Raw) returns (cands: seq<Candidate>, trace: seq<Note>)
    ensures cands == Candidates(p, acmeSh, env, homeEnv) && trace == Preface(p, acmeSh, homeEnv)
  {
    cands, trace := [Candidate(Env, env, true)], [];
    if acmeSh.Abs? && acmeSh.path in p.resolve {
      cands := cands + [Candidate(BinaryDir, Abs(Parent(p.resolve[acmeSh.path])), false)];
    } else if !acmeSh.Unset? {
      trace := trace + [Unusable(BinaryDir)];
    }
    if homeEnv.Abs? {
      cands := cands + [Candidate(HomeDefault, Abs(homeEnv.path + [".acme.sh"]), false)];
    } else if homeEnv.Relative? {
      trace := trace + [Unusable(HomeDefault)];
    }
  }

  /** The whole resolution: the home, the explanation of every candidate looked at, and the caveats. */
  method ResolveAcmeHome(p: Probe, acmeSh: Raw, env: Raw, homeEnv: Raw)
    returns (home: Option<Path>, trace: seq<Note>, caveats: seq<Path>)
    ensures home == Chosen(p, Candidates(p, acmeSh, env, homeEnv))
    ensures trace == Preface(p, acmeSh, homeEnv) + Judgements(p, Candidates(p, acmeSh, env, homeEnv))
                     + Closing(p, home)
    ensures caveats == Caveats(p, home)
  {
    hide Decide, FirstShared, Judgements, Candidates, Preface;
    var cands;
    cands, trace := Gather(p, acmeSh, env, homeEnv);
    caveats, home := [], None;
    ghost var preface := trace;
    ghost var n := Decisive(p, cands);
    ghost var all := Judgements(p, cands);
    assert |all| == Looked(p, cands) by { AllLooked(p, cands); }
    var i := 0;
    while i < |cands|
      invariant 0 <= i <= n
      invariant i <= |all| == Looked(p, cands) && trace == preface + all[..i]
    {
      JudgementAt(p, cands, i);
      var d := Decide(p, cands[i]);
      trace := trace + [Judged(cands[i].source, d)];
      assert trace == preface + all[..i + 1];
      if d != Skip {
        assert i == n && all[..i + 1] == all;
        if d == Fatal {
          trace := trace + [GaveUp];
          return;
        }
        home := Some(d.home);
        var c := FirstShared(p, d.home, 1);
        if c.Some? {
          caveats := [c.value];
          trace := trace + [Caveat(c.value)];
        }
        return;
      }
      i := i + 1;
    }
    assert all[..i] == all;
    trace := trace + [GaveUp];
  }

  /** The home is the first acceptable candidate, and no explicit refusal comes before it. */
  lemma FirstAcceptable(p: Probe, cands: seq<Candidate>, h: Path)
    ensures Chosen(p, cands) == Some(h) <==>
              exists i :: 0 <= i < |cands| && Decide(p, cands[i]) == Use(h)
                          && forall j :: 0 <= j < i ==> Decide(p, cands[j]) == Skip
  {}

  /** No home is found exactly when an explicit candidate was refused or every candidate was skipped. */
  lemma NoHomeExactlyWhen(p: Probe, cands: seq<Candidate>)
    ensures Chosen(p, cands) == None <==>
              (Decisive(p, cands) < |cands| && Decide(p, cands[Decisive(p, cands)]) == Fatal)
              || forall j :: 0 <= j < |cands| ==> Decide(p, cands[j]) == Skip
  {}

  /** The order of the sources: the environment variable decides when it is usable or refused; then the
      directory of acme.sh; then the default below the home directory. */
  lemma PriorityOrder(p: Probe, acmeSh: Raw, env: Raw, home: Raw)
    ensures var first := Decide(p, Candidate(Env, env, true));
            var found := Chosen(p, Candidates(p, acmeSh, env, home));
            (first.Use? ==> found == Some(env.path)) && (first.Fatal? ==> found == None)
    ensures Decide(p, Candidate(Env, env, true)).Skip? && acmeSh.Abs? && acmeSh.path in p.resolve
            && Decide(p, Candidate(BinaryDir, Abs(Parent(p.resolve[acmeSh.path])), false)).Use? ==>
              Chosen(p, Candidates(p, acmeSh, env, home)) == Some(Parent(p.resolve[acmeSh.path]))
    ensures Decide(p, Candidate(Env, env, true)).Skip?
            && (FromBinary(p, acmeSh) != [] ==> Decide(p, FromBinary(p, acmeSh)[0]).Skip?) && home.Abs?
            && Decide(p, Candidate(HomeDefault, Abs(home.path + [".acme.sh"]), false)).Use? ==>
              Chosen(p, Candidates(p, acmeSh, env, home)) == Some(home.path + [".acme.sh"])
  {
    hide Decide;
    var cands := Candidates(p, acmeSh, env, home);
    AdoptedExactlyWhen(p, cands[0]);
    if |cands| > 1 { AdoptedExactlyWhen(p, cands[1]); }
    if |cands| > 2 { AdoptedExactlyWhen(p, cands[2]); }
  }

  /** A refused setting stops the search, whatever comes after it; an adopted one decides it; and only one that
      is passed over leaves the choice to the candidates that follow. */
  lemma ExplicitDecides(p: Probe, env: Raw, rest: seq<Candidate>)
    ensures var first := Candidate(Env, env, true);
            var found := Chosen(p, [first] + rest);
            (Decide(p, first).Fatal? ==> found == None)
            && (Decide(p, first).Use? ==> found == Some(env.path))
            && (Decide(p, first).Skip? ==> found == Chosen(p, rest))
  {
    hide Decide;
    var first := Candidate(Env, env, true);
    AdoptedExactlyWhen(p, first);
    assert ([first] + rest)[1..] == rest;
    var n := Decisive(p, rest);
    assert Decide(p, first).Skip? ==> Decisive(p, [first] + rest) == 1 + n;
    assert n < |rest| ==> ([first] + rest)[1 + n] == rest[n];
  }

  /** So with such a setting there is no home, wherever acme.sh is and whatever HOME says. */
  lemma RefusalStopsTheSearch(p: Probe, acmeSh: Raw, env: Raw, home: Raw)
    requires env.Abs?
    requires !PositionOk(p, env.path)
             || (env.path in p.stat && p.stat[env.path].isDir
                 && if env.path in p.count && p.count[env.path] == 0 then !Healthy(p, env.path)
                    else !SelfCheck(p, env.path) || !Healthy(p, env.path))
    ensures Chosen(p, Candidates(p, acmeSh, env, home)) == None
  {
    hide Decide, PositionOk, Healthy, SelfCheck;
    var first := Candidate(Env, env, true);
    RefusedExactlyWhen(p, first);
    assert Candidates(p, acmeSh, env, home) == [first] + (FromBinary(p, acmeSh) + FromHome(home));
    ExplicitDecides(p, env, FromBinary(p, acmeSh) + FromHome(home));
  }

  /** The caveat names the first ancestor below the root, the home itself not included, that others can write
      to; there is none exactly if there is no such ancestor. */
  lemma CaveatExactly(p: Probe, home: Path)
    ensures Caveats(p, Some(home)) == [] <==> forall i :: 1 <= i < |home| ==> !SharedAt(p, home, i)
    ensures forall i :: 1 <= i < |home| && SharedAt(p, home, i)
                        && (forall j :: 1 <= j < i ==> !SharedAt(p, home, j)) ==>
              Caveats(p, Some(home)) == [home[..i]]
    ensures Caveats(p, None) == []
  {
    assert forall i :: 1 <= i < |home| ==> (SharedAt(p, home, i) <==> home[..i] in p.stat && p.stat[home[..i]].shared);
    forall i | 1 <= i < |home| && SharedAt(p, home, i) && forall j :: 1 <= j < i ==> !SharedAt(p, home, j)
      ensures FirstShared(p, home, 1) == Some(home[..i])
    {
      FirstSharedIs(p, home, 1, i);
    }
  }

  /** The directory a path of acme.sh leads to is the one its resolved path stands in. */
  lemma ParentOf(dir: Path, name: string)
    ensures Parent(dir + [name]) == dir && Parent([]) == []
  {}

  /** Every candidate up to the one that decides is explained, in order, and no later one. */
  lemma JudgementsExactly(p: Probe, cands: seq<Candidate>)
    ensures var all := Judgements(p, cands);
            |all| <= |cands|
            && (forall i :: 0 <= i < |all| ==> all[i] == Judged(cands[i].source, Decide(p, cands[i])))
            && (forall i :: 0 <= i < |all| - 1 ==> Decide(p, cands[i]) == Skip)
            && (|all| < |cands| ==> all != [] && Decide(p, cands[|all| - 1]) != Skip)
  {
    hide Decide;
  }

  /** The notes around the judgements: a path of acme.sh, or a home of the user, that is given but leads to no
      candidate is named first; in the end comes the refusal, or the one caveat there is. */
  lemma NotesExactly(p: Probe, acmeSh: Raw, home: Raw, chosen: Option<Path>)
    ensures var early := Preface(p, acmeSh, home);
            (Unusable(BinaryDir) in early <==>
               acmeSh.Relative? || (acmeSh.Abs? && acmeSh.path !in p.resolve))
            && (Unusable(HomeDefault) in early <==> home.Relative?)
            && |early| == (if Unusable(BinaryDir) in early then 1 else 0)
                          + (if Unusable(HomeDefault) in early then 1 else 0)
    ensures Closing(p, None) == [GaveUp]
    ensures chosen.Some? ==>
              |Closing(p, chosen)| == |Caveats(p, chosen)| <= 1
              && forall i :: 0 <= i < |Closing(p, chosen)| ==> Closing(p, chosen)[i] == Caveat(Caveats(p, chosen)[i])
  {
    hide FirstShared;
  }

  predicate SharedAt(p: Probe, dir: Path, i: nat)
    requires i <= |dir|
  {
    dir[..i] in p.stat && p.stat[dir[..i]].shared
  }

  lemma {:induction false} FirstSharedIs(p: Probe, dir: Path, k: nat, i: nat)
    requires k <= i < |dir| && dir[..i] in p.stat && p.stat[dir[..i]].shared
    requires forall j :: k <= j < i && dir[..j] in p.stat ==> !p.stat[dir[..j]].shared
    ensures FirstShared(p, dir, k) == Some(dir[..i])
    decreases i - k
  {
    if k < i { FirstSharedIs(p, dir, k + 1, i); }
  }

  // ---------------------------------------------------------------- what an adopted home has passed

  /** Every home that is adopted is reached through no foreign link, through no own link into a public
      directory; if it already exists it belongs to this user, is not writable by others and is no
      source checkout; if it holds anything it passed the self check; and only the explicit setting
      leads to a public directory or to one still to be initialised. */
  lemma AdoptedHomeIsSafe(p: Probe, acmeSh: Raw, env: Raw, homeEnv: Raw, h: Path)
    requires Chosen(p, Candidates(p, acmeSh, env, homeEnv)) == Some(h)
    ensures !ForeignLink(p, h)
    ensures OwnLink(p, h) && h in p.resolve ==> !Public(p, p.resolve[h])
    ensures h in p.stat ==> p.stat[h].isDir && p.stat[h].uid == p.uid && !p.stat[h].shared
                            && !IsDir(p, h + [".git"])
    ensures h in p.stat && !Empty(p, h) ==> SelfCheck(p, h)
    ensures Public(p, h) || Uninitialised(p, h) ==> env == Abs(h)
    ensures Uninitialised(p, h) ==> !p.hasCerts
  {
    hide Public, ForeignLink, OwnLink, SelfCheck;
    var cands := Candidates(p, acmeSh, env, homeEnv);
    var c := cands[Decisive(p, cands)];
    AdoptedExactlyWhen(p, c);
    assert c.explicit ==> c == cands[0];
  }

  // ---------------------------------------------------------------- certificates on the host

  lemma HasCertsOnDecision(p: Probe, c: Candidate)
    requires !p.hasCerts
    ensures Decide(p.(hasCerts := true), c)
            == if Decide(p, c).Use? && Uninitialised(p, Decide(p, c).home) then Skip else Decide(p, c)
  {}

  lemma {:induction false} HasCertsOnSearch(p: Probe, cands: seq<Candidate>)
    requires !p.hasCerts
    ensures var q := p.(hasCerts := true);
            (Chosen(p, cands).None? || !Uninitialised(p, Chosen(p, cands).value)) ==>
              Chosen(q, cands) == Chosen(p, cands)
  {
    hide Decide, Uninitialised;
    if cands != [] {
      HasCertsOnDecision(p, cands[0]);
      HasCertsOnSearch(p, cands[1..]);
    }
  }

  /** Once the host has certificates the result changes exactly when it was a location still to be
      initialised; in particular a failed resolution stays failed. */
  lemma HasCertsChangesExactly(p: Probe, acmeSh: Raw, env: Raw, homeEnv: Raw)
    requires !p.hasCerts
    ensures var q := p.(hasCerts := true);
            var r := Chosen(p, Candidates(p, acmeSh, env, homeEnv));
            Chosen(q, Candidates(q, acmeSh, env, homeEnv)) != r <==> r.Some? && Uninitialised(p, r.value)
  {
    hide Decide, Uninitialised, Chosen;
    var q := p.(hasCerts := true);
    var cands := Candidates(p, acmeSh, env, homeEnv);
    assert cands == Candidates(q, acmeSh, env, homeEnv);
    HasCertsOnSearch(p, cands);
    NeverUninitialised(q, cands);
    assert forall d :: Uninitialised(p, d) == Uninitialised(q, d) by {
      forall d ensures Uninitialised(p, d) == Uninitialised(q, d) { SameUninitialised(p, q, d); }
    }
  }

  lemma SameUninitialised(p: Probe, q: Probe, d: Path)
    requires q == p.(hasCerts := true)
    ensures Uninitialised(p, d) == Uninitialised(q, d)
  {}

  lemma NeverUninitialised(q: Probe, cands: seq<Candidate>)
    requires q.hasCerts
    ensures Chosen(q, cands).Some? ==> !Uninitialised(q, Chosen(q, cands).value)
  {}

  // ---------------------------------------------------------------- caveats decide nothing

  /** q differs from p at most in who may write to directories that are no candidates. */
  ghost predicate SameButShared(p: Probe, q: Probe, cands: seq<Candidate>) {
    q == p.(stat := q.stat)
    && q.stat.Keys == p.stat.Keys
    && (forall d :: d in p.stat ==> q.stat[d] == p.stat[d].(shared := q.stat[d].shared))
    && forall c :: c in cands && c.raw.Abs? && c.raw.path in p.stat ==> q.stat[c.raw.path] == p.stat[c.raw.path]
  }

  lemma SharedOnDecision(p: Probe, q: Probe, cands: seq<Candidate>, c: Candidate)
    requires SameButShared(p, q, cands) && c in cands
    ensures Decide(p, c) == Decide(q, c)
  {
    hide Within, LinkAt;
    if c.raw.Abs? {
      var dir := c.raw.path;
      assert IsDir(p, dir + ["ca"]) == IsDir(q, dir + ["ca"]) && IsDir(p, dir + [".git"]) == IsDir(q, dir + [".git"]);
      assert dir + ["account.conf"] in p.stat <==> dir + ["account.conf"] in q.stat;
      SharedOnPosition(p, q, cands, dir);
    }
  }

  lemma SharedOnPosition(p: Probe, q: Probe, cands: seq<Candidate>, dir: Path)
    requires SameButShared(p, q, cands)
    ensures PositionOk(p, dir) == PositionOk(q, dir) && Public(p, dir) == Public(q, dir)
    ensures ForeignLink(p, dir) == ForeignLink(q, dir)
  {}

  /** Whatever the caveats report - ancestors that others can write to - the choice is the same. */
  lemma {:induction false} CaveatsDecideNothing(p: Probe, q: Probe, cands: seq<Candidate>)
    requires SameButShared(p, q, cands)
    ensures Chosen(p, cands) == Chosen(q, cands)
  {
    hide Decide;
    if cands != [] {
      SharedOnDecision(p, q, cands, cands[0]);
      CaveatsDecideNothing(p, q, cands[1..]);
    }
  }
}
