/** Whole runs of the configuration push: any number of nodes, any number of key edits in flight at
    once, lost responses, restarts of agents and of the manager. */
module ConfigPushRuns {

  import opened Prelude
  import opened ConfigRender
  import opened ConfigPush

  /** A key edit is three store calls: save (or delete) the key, bump the version, clear the hashes. */
  datatype Phase = Saved(name: string) | Bumped(name: string)

  datatype World = World(keys: Keys, version: nat, nodes: Nodes, nodesFile: Nodes,
                         agents: map<string, AgentState>, edits: map<nat, Phase>)

  datatype Event =
    | SaveConfig(id: string, cfg: NodeConfig, bindingsExist: bool)
    | SaveKey(edit: nat, name: string, req: DnsKey)
    | DeleteKey(edit: nat, name: string)
    | BumpVersion(edit: nat)
    | Invalidate(edit: nat)
    | Heartbeat(id: string, delivered: bool, out: Outcome)
    | FollowUp(id: string, reported: Digest)
    | AgentRestart(id: string)
    | ManagerRestart

  predicate Known(w: World, id: string) {
    id in w.nodes && id in w.nodesFile && id in w.agents
  }

  /** An edit whose key is already changed but whose version bump is still to come. */
  predicate AwaitsBump(w: World, cfg: Option<NodeConfig>) {
    cfg.Some? && exists e :: e in w.edits && w.edits[e].Saved? && Names(cfg.value, w.edits[e].name)
  }

  predicate Names(cfg: NodeConfig, name: string) {
    exists i :: 0 <= i < |cfg.cards| && cfg.cards[i].dnsKey == name
  }

  /** The response a heartbeat of `id` would get now. */
  function Answer(w: World, id: string): Response
    requires Known(w, id)
  {
    HeartbeatNode(w.nodes[id], w.keys, w.version, Wake(w.agents[id]).lastHash).1
  }

  /** One event; an event that is not enabled changes nothing. */
  function Step(w: World, e: Event): World {
    match e
    case SaveConfig(id, cfg, exist) =>
      if !(Known(w, id) && AcceptsConfig(cfg, w.keys)) then w
      else
        var nodes := w.nodes[id := SavedNode(w.nodes[id], cfg, exist)];
        w.(nodes := nodes, nodesFile := if exist then nodes else w.nodesFile)
    case SaveKey(edit, name, req) =>
      if edit in w.edits then w
      else w.(keys := w.keys[name := EditedKey(w.keys, name, req)], edits := w.edits[edit := Saved(name)])
    case DeleteKey(edit, name) =>
      if edit in w.edits || name !in w.keys then w
      else w.(keys := w.keys - {name}, edits := w.edits[edit := Saved(name)])
    case BumpVersion(edit) =>
      if !(edit in w.edits && w.edits[edit].Saved?) then w
      else w.(version := w.version + 1, edits := w.edits[edit := Bumped(w.edits[edit].name)])
    case Invalidate(edit) =>
      if !(edit in w.edits && w.edits[edit].Bumped?) then w
      else
        var name := w.edits[edit].name;
        var nodes := ClearAll(w.nodes, name, ProviderOf(w.keys, name));
        var changed := exists id :: id in w.nodes && Affected(w.nodes[id], name, ProviderOf(w.keys, name));
        w.(nodes := nodes, nodesFile := if changed then nodes else w.nodesFile, edits := w.edits - {edit})
    case Heartbeat(id, delivered, out) =>
      if !Known(w, id) then w
      else
        var a := Wake(w.agents[id]);
        var (n, resp) := HeartbeatNode(w.nodes[id], w.keys, w.version, a.lastHash);
        var nodes := w.nodes[id := n];
        w.(nodes := nodes, nodesFile := nodes,
           agents := w.agents[id := if delivered then Receive(a, resp.config, out) else a])
    case FollowUp(id, reported) =>
      if !Known(w, id) then w
      else
        var nodes := w.nodes[id := HeartbeatNode(w.nodes[id], w.keys, w.version, reported).0];
        w.(nodes := nodes, nodesFile := nodes)
    case AgentRestart(id) =>
      if !Known(w, id) then w else w.(agents := w.agents[id := Restarted(w.agents[id])])
    case ManagerRestart =>
      // The baseline: keys without a recorded version count as version 1.
      w.(nodes := w.nodesFile, edits := map[],
         version := if w.version == 0 && |w.keys| > 0 then 1 else w.version)
  }

  function Run(w: World, es: seq<Event>): World {
    if es == [] then w else Step(Run(w, es[..|es| - 1]), es[|es| - 1])
  }

  predicate Initial(w: World, id: string) {
    Known(w, id) && w.edits == map[] && w.nodesFile == w.nodes
    && w.nodes[id].hash == NoHash && w.nodes[id].keysVersion <= w.version
    && w.agents[id] == AgentState(NoHash, None, false, None, NoHash)
  }

  // ---------------------------------------------------------------- the agent's own state

  /** With successful writes an agent's memory and disk agree. */
  predicate AgentOk(a: AgentState) {
    a.hashFile == (if a.cacheFile.Some? then Sha256(a.cacheFile.value) else NoHash)
    && (a.lastHash == NoHash || a.lastHash == a.hashFile)
    && (a.loaded ==> a.running == a.cacheFile)
    && (!a.loaded ==> a.running == None)
  }

  lemma AwakeAgent(a: AgentState)
    requires AgentOk(a)
    ensures AgentOk(Wake(a)) && Wake(a).lastHash == a.hashFile && Wake(a).hashFile == a.hashFile
    ensures Wake(a).lastHash == if Wake(a).running.Some? then Sha256(Wake(a).running.value) else NoHash
  {}

  // ---------------------------------------------------------------- the record against the agent

  /** A record that would not be rendered again, for an agent at hash h, is current. */
  predicate NodeOk(n: Node, h: Digest, current: Digest, version: nat, busy: bool) {
    n.keysVersion <= version
    && (n.hash != NoHash && n.hash == h && n.keysVersion == version && !busy ==> n.hash == current)
  }

  predicate GoodAt(w: World, id: string) {
    Known(w, id) && AgentOk(w.agents[id])
    && NodeGood(w, w.nodes[id], w.agents[id].hashFile)
    && NodeGood(w, w.nodesFile[id], w.agents[id].hashFile)
  }

  predicate NodeGood(w: World, n: Node, h: Digest) {
    NodeOk(n, h, Current(n.config, w.keys), w.version, AwaitsBump(w, n.config))
  }

  /** One heartbeat keeps the record good, whether or not its response arrives. */
  lemma HeartbeatKeepsNode(n: Node, keys: Keys, version: nat, h: Digest, busy: bool)
    requires NodeOk(n, h, Current(n.config, keys), version, busy)
    ensures var (n', resp) := HeartbeatNode(n, keys, version, h);
            n'.config == n.config
            && NodeOk(n', h, Current(n.config, keys), version, busy)
            && (resp.config.Some? ==>
                  Sha256(resp.config.value) != h
                  && NodeOk(n', Sha256(resp.config.value), Current(n.config, keys), version, busy))
  {}

  /** A change of one key leaves every record good: those it matters to wait for the bump. */
  lemma KeyEditKeepsNode(w: World, edit: nat, name: string, k: Option<DnsKey>, n: Node, h: Digest)
    requires NodeGood(w, n, h) && edit !in w.edits
    ensures NodeGood(w.(keys := WithKey(w.keys, name, k), edits := w.edits[edit := Saved(name)]), n, h)
  {
    var w' := w.(keys := WithKey(w.keys, name, k), edits := w.edits[edit := Saved(name)]);
    if n.config.Some? {
      if Names(n.config.value, name) {
        assert edit in w'.edits && w'.edits[edit].Saved?;
      } else {
        CardsFrame(n.config.value.cards, w.keys, name, k);
        assert Current(n.config, w'.keys) == Current(n.config, w.keys);
        if AwaitsBump(w, n.config) {
          var e :| e in w.edits && w.edits[e].Saved? && Names(n.config.value, w.edits[e].name);
          assert e in w'.edits && w'.edits[e] == w.edits[e];
        }
      }
    }
  }

  /** After a bump no record is at the current version any more. */
  lemma BumpKeepsNode(w: World, edit: nat, n: Node, h: Digest)
    requires NodeGood(w, n, h) && edit in w.edits && w.edits[edit].Saved?
    ensures NodeGood(Step(w, BumpVersion(edit)), n, h)
  {}

  /** Forgetting edits that are past their bump takes no protection away. */
  lemma DropBumpedKeepsNode(w: World, edits: map<nat, Phase>, n: Node, h: Digest)
    requires NodeGood(w, n, h)
    requires forall e :: e in w.edits && w.edits[e].Saved? ==> e in edits && edits[e] == w.edits[e]
    ensures NodeGood(w.(edits := edits), n, h)
  {}

  /** The events of the main theorem: every write on the agent succeeds, heartbeats report what the
      agent runs, and the manager is not stopped between saving a key and bumping the version. */
  predicate Honest(w: World, e: Event) {
    match e
    case Heartbeat(_, _, out) => out == AllWritten || !out.applied
    case FollowUp(_, _) => false
    case ManagerRestart => forall x :: x in w.edits ==> w.edits[x].Bumped?
    case _ => true
  }

  lemma StepKeepsGood(w: World, e: Event, id: string)
    requires GoodAt(w, id) && Honest(w, e)
    ensures GoodAt(Step(w, e), id)
  {
    var h := w.agents[id].hashFile;
    var n, f := w.nodes[id], w.nodesFile[id];
    match e
    case SaveConfig(_, _, _) =>
    case SaveKey(edit, name, req) =>
      if edit !in w.edits {
        KeyEditKeepsNode(w, edit, name, Some(EditedKey(w.keys, name, req)), n, h);
        KeyEditKeepsNode(w, edit, name, Some(EditedKey(w.keys, name, req)), f, h);
      }
    case DeleteKey(edit, name) =>
      if edit !in w.edits {
        KeyEditKeepsNode(w, edit, name, None, n, h);
        KeyEditKeepsNode(w, edit, name, None, f, h);
      }
    case BumpVersion(edit) =>
      if edit in w.edits && w.edits[edit].Saved? {
        BumpKeepsNode(w, edit, n, h);
        BumpKeepsNode(w, edit, f, h);
      }
    case Invalidate(edit) =>
      if edit in w.edits && w.edits[edit].Bumped? {
        DropBumpedKeepsNode(w, w.edits - {edit}, n, h);
        DropBumpedKeepsNode(w, w.edits - {edit}, f, h);
      }
    case Heartbeat(id', delivered, out) =>
      if id' == id {
        AwakeAgent(w.agents[id]);
        HeartbeatKeepsNode(n, w.keys, w.version, h, AwaitsBump(w, n.config));
      }
    case FollowUp(_, _) =>
      assert false;
    case AgentRestart(_) =>
    case ManagerRestart =>
      DropBumpedKeepsNode(w, map[], f, h);
  }

  predicate HonestRun(w: World, es: seq<Event>) {
    forall i :: 0 <= i < |es| ==> Honest(Run(w, es[..i]), es[i])
  }

  lemma {:induction false} RunKeepsGood(w: World, es: seq<Event>, id: string)
    requires GoodAt(w, id) && HonestRun(w, es)
    ensures GoodAt(Run(w, es), id)
  {
    if es != [] {
      var n := |es| - 1;
      forall i | 0 <= i < n ensures Honest(Run(w, es[..n][..i]), es[..n][i]) {
        assert es[..n][..i] == es[..i];
      }
      RunKeepsGood(w, es[..n], id);
      StepKeepsGood(Run(w, es[..n]), es[n], id);
    }
  }

  /** Safety.  In every reachable state, unless an edit of a key the node names still awaits its
      version bump, a heartbeat that brings neither a configuration nor an error finds the agent
      running exactly the current rendering. */
  lemma SilenceMeansCurrent(w0: World, es: seq<Event>, id: string)
    requires Initial(w0, id) && HonestRun(w0, es)
    ensures var w := Run(w0, es);
            Known(w, id)
            && (w.nodes[id].approved && w.nodes[id].config.Some? && !AwaitsBump(w, w.nodes[id].config)
                && Answer(w, id) == Response(None, None)
                ==> Render(w.nodes[id].config.value, w.keys).Success?
                    && Wake(w.agents[id]).running == Some(Render(w.nodes[id].config.value, w.keys).value))
  {
    RunKeepsGood(w0, es, id);
    AwakeAgent(Run(w0, es).agents[id]);
  }

  // ---------------------------------------------------------------- convergence

  /** The agent runs r, and r is what its configuration renders to, in memory and on disk. */
  predicate Settled(w: World, id: string, cfg: NodeConfig, r: Rendering) {
    Known(w, id) && AgentOk(w.agents[id]) && w.agents[id].cacheFile == Some(r)
    && w.nodes[id].config == w.nodesFile[id].config == Some(cfg)
    && Render(cfg, w.keys) == Success(r)
  }

  /** No configuration is saved and no key is changed; anything else may go on. */
  predicate Quiet(e: Event) {
    !e.SaveConfig? && !e.SaveKey? && !e.DeleteKey?
    && (e.Heartbeat? ==> e.out == AllWritten || !e.out.applied)
  }

  lemma SettledIsSilent(w: World, id: string, cfg: NodeConfig, r: Rendering)
    requires Settled(w, id, cfg, r)
    ensures Answer(w, id) == Response(None, None) && Wake(w.agents[id]).running == Some(r)
  {}

  lemma StepKeepsSettled(w: World, e: Event, id: string, cfg: NodeConfig, r: Rendering)
    requires Settled(w, id, cfg, r) && Quiet(e)
    ensures Settled(Step(w, e), id, cfg, r)
  {}

  lemma {:induction false} RunKeepsSettled(w: World, es: seq<Event>, id: string, cfg: NodeConfig, r: Rendering)
    requires Settled(w, id, cfg, r) && forall i :: 0 <= i < |es| ==> Quiet(es[i])
    ensures Settled(Run(w, es), id, cfg, r)
  {
    if es != [] {
      var n := |es| - 1;
      RunKeepsSettled(w, es[..n], id, cfg, r);
      StepKeepsSettled(Run(w, es[..n]), es[n], id, cfg, r);
    }
  }

  /** A heartbeat whose response arrives and is applied settles the agent. */
  lemma DeliveredHeartbeatSettles(w: World, id: string, cfg: NodeConfig, r: Rendering)
    requires GoodAt(w, id) && w.nodes[id].approved && w.nodes[id].config == Some(cfg)
    requires Render(cfg, w.keys) == Success(r) && !AwaitsBump(w, Some(cfg))
    ensures Settled(Step(w, Heartbeat(id, true, AllWritten)), id, cfg, r)
  {
    hide Render, AwaitsBump;
    AwakeAgent(w.agents[id]);
  }

  /** Convergence.  Once edits stop, one delivered heartbeat brings the agent to the current
      rendering, and through every later run it stays there and is never pushed to again. */
  lemma OneHeartbeatConverges(w0: World, es: seq<Event>, id: string, cfg: NodeConfig, r: Rendering, later: seq<Event>)
    requires Initial(w0, id) && HonestRun(w0, es)
    requires var w := Run(w0, es);
             id in w.nodes && w.nodes[id].approved && w.nodes[id].config == Some(cfg)
             && Render(cfg, w.keys) == Success(r) && !AwaitsBump(w, Some(cfg))
    requires forall i :: 0 <= i < |later| ==> Quiet(later[i])
    ensures var w' := Run(Step(Run(w0, es), Heartbeat(id, true, AllWritten)), later);
            Known(w', id) && Answer(w', id) == Response(None, None) && Wake(w'.agents[id]).running == Some(r)
  {
    var w := Run(w0, es);
    RunKeepsGood(w0, es, id);
    DeliveredHeartbeatSettles(w, id, cfg, r);
    var w1 := Step(w, Heartbeat(id, true, AllWritten));
    RunKeepsSettled(w1, later, id, cfg, r);
    SettledIsSilent(Run(w1, later), id, cfg, r);
  }

  /** From the request to the agent: a configuration that is accepted and renders is what the agent runs after
      its next delivered heartbeat, whatever the state the node was in. */
  lemma SavedConfigArrives(w: World, id: string, cfg: NodeConfig, r: Rendering)
    requires Known(w, id) && AgentOk(w.agents[id]) && AcceptsConfig(cfg, w.keys) && Render(cfg, w.keys) == Success(r)
    ensures var w' := Step(Step(w, SaveConfig(id, cfg, true)), Heartbeat(id, true, AllWritten));
            Settled(w', id, cfg, r) && w'.agents[id].running == Some(r)
  {
    hide Render, AcceptsConfig;
    AwakeAgent(w.agents[id]);
  }

  /** A key edit that is followed through reaches every agent whose configuration names the key: after the three
      calls, one delivered heartbeat brings the rendering with the new key. */
  lemma EditedKeyArrives(w: World, id: string, edit: nat, name: string, req: DnsKey, cfg: NodeConfig, r: Rendering)
    requires Known(w, id) && AgentOk(w.agents[id]) && edit !in w.edits
    requires w.nodes[id].approved && w.nodes[id].config == Some(cfg) && Names(cfg, name)
    requires Render(cfg, w.keys[name := EditedKey(w.keys, name, req)]) == Success(r)
    ensures var w' := Step(Step(Step(w, SaveKey(edit, name, req)), BumpVersion(edit)), Invalidate(edit));
            Settled(Step(w', Heartbeat(id, true, AllWritten)), id, cfg, r)
  {
    hide Render, EditedKey, Names, ClearAll;
    var w1 := SavedAndBumped(w, edit, name, req);
    var w2 := Step(w1, Invalidate(edit));
    NamedIsCleared(w.nodes[id], cfg, name, ProviderOf(w1.keys, name));
    assert w2.nodes[id] == w.nodes[id].(hash := NoHash) && id in w2.nodesFile;
    ClearedIsServed(w2, id, cfg, r);
  }

  lemma SavedAndBumped(w: World, edit: nat, name: string, req: DnsKey) returns (v: World)
    requires edit !in w.edits
    ensures v == Step(Step(w, SaveKey(edit, name, req)), BumpVersion(edit))
    ensures v == w.(keys := w.keys[name := EditedKey(w.keys, name, req)], version := w.version + 1,
                    edits := w.edits[edit := Bumped(name)])
  {
    v := Step(Step(w, SaveKey(edit, name, req)), BumpVersion(edit));
  }

  lemma NamedIsCleared(n: Node, cfg: NodeConfig, name: string, provider: string)
    requires n.config == Some(cfg) && Names(cfg, name)
    ensures Cleared(n, name, provider) == n.(hash := NoHash)
  {
    var i :| 0 <= i < |cfg.cards| && cfg.cards[i].dnsKey == name;
    assert cfg.cards[i] in cfg.cards;
  }

  lemma ClearedIsServed(w: World, id: string, cfg: NodeConfig, r: Rendering)
    requires Known(w, id) && AgentOk(w.agents[id]) && w.nodes[id].approved && w.nodes[id].config == Some(cfg)
    requires w.nodes[id].hash == NoHash && Render(cfg, w.keys) == Success(r)
    ensures Settled(Step(w, Heartbeat(id, true, AllWritten)), id, cfg, r)
  {
    hide Render;
    AwakeAgent(w.agents[id]);
  }

  /** So does a deletion: after the three calls a node that names the key is told so, and gets no configuration
      until that changes. */
  lemma DeletedKeyIsReported(w: World, id: string, edit: nat, name: string, cfg: NodeConfig)
    requires Known(w, id) && edit !in w.edits && name in w.keys
    requires w.nodes[id].approved && w.nodes[id].config == Some(cfg) && Names(cfg, name)
    ensures var w' := Step(Step(Step(w, DeleteKey(edit, name)), BumpVersion(edit)), Invalidate(edit));
            name !in w'.keys && Known(w', id)
            && Answer(w', id).config.None? && Answer(w', id).error.Some?
  {
    hide Render, Names, Wake, Affected, Step;
    var w1 := DeletedAndBumped(w, edit, name);
    var w2 := Step(w1, Invalidate(edit));
    NamedIsCleared(w.nodes[id], cfg, name, ProviderOf(w1.keys, name));
    InvalidatedIs(w1, edit, id, name);
    NamedMustExist(cfg, name, w2.keys);
  }

  lemma DeletedAndBumped(w: World, edit: nat, name: string) returns (v: World)
    requires edit !in w.edits && name in w.keys
    ensures v == Step(Step(w, DeleteKey(edit, name)), BumpVersion(edit))
    ensures v == w.(keys := w.keys - {name}, version := w.version + 1, edits := w.edits[edit := Bumped(name)])
  {
    v := Step(Step(w, DeleteKey(edit, name)), BumpVersion(edit));
  }

  lemma InvalidatedIs(w: World, edit: nat, id: string, name: string)
    requires id in w.nodes && edit in w.edits && w.edits[edit] == Bumped(name)
    ensures var w' := Step(w, Invalidate(edit));
            w' == w.(nodes := w'.nodes, nodesFile := w'.nodesFile, edits := w.edits - {edit})
            && id in w'.nodes && w'.nodes[id] == Cleared(w.nodes[id], name, ProviderOf(w.keys, name))
            && (id in w.nodesFile ==> id in w'.nodesFile)
            && w'.nodesFile ==
               if exists x :: x in w.nodes && Affected(w.nodes[x], name, ProviderOf(w.keys, name)) then w'.nodes
               else w.nodesFile
  {
    hide Affected, Cleared;
  }

  /** Whom the end of an edit concerns: exactly the nodes that name the key, for all or for one card, or ask for
      the provider the key has now, lose their recorded hash.  The file is written only if there was one. */
  lemma InvalidatedExactly(w: World, edit: nat, id: string, name: string)
    requires id in w.nodes && edit in w.edits && w.edits[edit] == Bumped(name)
    ensures var w' := Step(w, Invalidate(edit));
            id in w'.nodes
            && w'.nodes[id] == (if Refers(w.nodes[id].config, w.keys, name) then w.nodes[id].(hash := NoHash)
                                else w.nodes[id])
            && w'.nodesFile == (if exists x :: x in w.nodes && Refers(w.nodes[x].config, w.keys, name) then w'.nodes
                                else w.nodesFile)
  {
    InvalidatedIs(w, edit, id, name);
    forall x | x in w.nodes
      ensures Affected(w.nodes[x], name, ProviderOf(w.keys, name)) <==> Refers(w.nodes[x].config, w.keys, name)
    {}
    hide Step, Affected, Refers, ProviderOf;
  }

  predicate Refers(config: Option<NodeConfig>, keys: Keys, name: string) {
    config.Some?
    && (config.value.keyName == name
        || (name in keys && keys[name].provider != "" && config.value.provider == keys[name].provider)
        || exists c :: c in config.value.cards && c.dnsKey == name)
  }

  /** A request that names a missing key changes nothing. */
  lemma RefusedChangesNothing(w: World, id: string, cfg: NodeConfig, exist: bool, name: string)
    requires name != "" && name !in w.keys && (cfg.keyName == name || Names(cfg, name))
    ensures Step(w, SaveConfig(id, cfg, exist)) == w
  {}

  /** An agent whose response is lost has only woken up; one that restarts keeps its two files and nothing else. */
  lemma AgentsOwnEvents(w: World, id: string, out: Outcome)
    requires Known(w, id)
    ensures Step(w, Heartbeat(id, false, out)).agents == w.agents[id := Wake(w.agents[id])]
    ensures var a := w.agents[id];
            Step(w, AgentRestart(id)) ==
              w.(agents := w.agents[id := AgentState(NoHash, None, false, a.cacheFile, a.hashFile)])
  {
    hide HeartbeatNode, Wake;
  }

  lemma NamedMustExist(cfg: NodeConfig, name: string, keys: Keys)
    requires Names(cfg, name) && name !in keys
    ensures Render(cfg, keys).Failure?
  {
    hide Render;
    RendersIff(cfg, keys);
    var i :| 0 <= i < |cfg.cards| && cfg.cards[i].dnsKey == name;
    assert !Renderable(cfg.cards[i], keys);
  }

  /** A delivered configuration is on record: its hash and the version of the keys it was rendered with, for the
      heartbeat of this node and a follow-up alike.  And a record changes only by catching up with the keys. */
  lemma PushIsRecorded(w: World, e: Event, id: string)
    requires Known(w, id) && (e.Heartbeat? || e.FollowUp?) && e.id == id
    ensures var n' := Step(w, e).nodes[id];
            var config := if e.Heartbeat? then Answer(w, id).config
                          else HeartbeatNode(w.nodes[id], w.keys, w.version, e.reported).1.config;
            (config.Some? ==> n' == w.nodes[id].(hash := Sha256(config.value), keysVersion := w.version))
            && (n' != w.nodes[id] ==> n'.keysVersion == w.version)
  {
    hide Wake, Receive, HeartbeatNode;
    RecordCatchesUp(w.nodes[id], w.keys, w.version, if e.Heartbeat? then Wake(w.agents[id]).lastHash else e.reported);
  }

  lemma RecordCatchesUp(n: Node, keys: Keys, version: nat, reported: Digest)
    ensures var (n', resp) := HeartbeatNode(n, keys, version, reported);
            (resp.config.Some? ==> n' == n.(hash := Sha256(resp.config.value), keysVersion := version))
            && (n' != n ==> n'.keysVersion == version)
  {
    hide Render;
  }

  predicate SameAt<T(==)>(a: map<string, T>, b: map<string, T>, id: string) {
    (id in a <==> id in b) && (id in a ==> a[id] == b[id])
  }

  /** The events of one node leave the others alone. */
  lemma OthersNotConcerned(w: World, e: Event, other: string)
    requires (e.SaveConfig? || e.Heartbeat? || e.FollowUp? || e.AgentRestart?) && e.id != other
    ensures var w' := Step(w, e);
            SameAt(w.nodes, w'.nodes, other) && SameAt(w.agents, w'.agents, other)
            && w'.keys == w.keys && w'.version == w.version && w'.edits == w.edits
  {
    hide HeartbeatNode, AcceptsConfig, SavedNode, Receive;
  }

  /** The file keeps up with the records in memory, except that a configuration refused for a missing certificate
      is only in memory. */
  lemma {:induction false} FileKeepsUp(w: World, es: seq<Event>)
    requires w.nodesFile == w.nodes && forall e :: e in es && e.SaveConfig? ==> e.bindingsExist
    ensures Run(w, es).nodesFile == Run(w, es).nodes
  {
    hide Step;
    if es != [] {
      assert es[|es| - 1] in es;
      FileKeepsUp(w, es[..|es| - 1]);
      FileFollows(Run(w, es[..|es| - 1]), es[|es| - 1]);
    }
  }

  lemma FileFollows(w: World, e: Event)
    requires w.nodesFile == w.nodes && (e.SaveConfig? ==> e.bindingsExist)
    ensures Step(w, e).nodesFile == Step(w, e).nodes
  {
    hide HeartbeatNode, AcceptsConfig, Affected, ClearAll, SavedNode;
    if e.Invalidate? && e.edit in w.edits {
      var name := w.edits[e.edit].name;
      NobodyAffected(w.nodes, name, ProviderOf(w.keys, name));
    }
  }

  lemma NobodyAffected(nodes: Nodes, name: string, provider: string)
    ensures (forall id :: id in nodes ==> !Affected(nodes[id], name, provider)) ==>
              ClearAll(nodes, name, provider) == nodes
  {
    hide Affected;
  }

  /** The exception: a refused request is in memory, and gone after a restart. */
  lemma RefusedConfigIsForgotten(w: World, id: string, cfg: NodeConfig)
    requires Known(w, id) && AcceptsConfig(cfg, w.keys) && w.nodesFile == w.nodes
    ensures var w' := Step(w, SaveConfig(id, cfg, false));
            w'.nodes[id].config == Some(cfg) && w'.nodesFile == w.nodes
            && Step(w', ManagerRestart).nodes == w.nodes
  {
    hide AcceptsConfig;
  }

  /** A restart of the manager loses the edits in progress, and nothing in the files.  Keys without a recorded
      version get one: every node whose record is older is then rendered anew, whatever it has on record. */
  lemma RestartSetsBaseline(w: World, id: string, cfg: NodeConfig, r: Rendering)
    requires Known(w, id) && w.nodesFile == w.nodes && AgentOk(w.agents[id])
    requires w.nodes[id].approved && w.nodes[id].config == Some(cfg) && w.nodes[id].keysVersion == 0
    requires Render(cfg, w.keys) == Success(r)
    ensures var w' := Step(w, ManagerRestart);
            w'.keys == w.keys && w'.nodes == w.nodes && w'.agents == w.agents && w'.edits == map[]
            && w'.version == (if w.version == 0 then 1 else w.version)
            && Settled(Step(w', Heartbeat(id, true, AllWritten)), id, cfg, r)
  {
    hide Render;
    RenderingNeedsKeys(cfg, w.keys);
    AwakeAgent(w.agents[id]);
    OlderIsServed(Step(w, ManagerRestart), id, cfg, r);
  }

  lemma RenderingNeedsKeys(cfg: NodeConfig, keys: Keys)
    requires Render(cfg, keys).Success?
    ensures |keys| > 0
  {
    hide Render;
    RendersIff(cfg, keys);
    assert Renderable(cfg.cards[0], keys);
    assert |keys| == 0 ==> keys == map[];
  }

  lemma OlderIsServed(w: World, id: string, cfg: NodeConfig, r: Rendering)
    requires Known(w, id) && AgentOk(w.agents[id]) && w.nodesFile == w.nodes
    requires w.nodes[id].approved && w.nodes[id].config == Some(cfg) && w.nodes[id].keysVersion < w.version
    requires Render(cfg, w.keys) == Success(r)
    ensures Settled(Step(w, Heartbeat(id, true, AllWritten)), id, cfg, r)
  {
    hide Render;
    AwakeAgent(w.agents[id]);
  }

  /** Without keys there is no baseline; and the version is otherwise only ever raised, by the bumps. */
  lemma {:induction false} VersionCountsBumps(w: World, es: seq<Event>)
    ensures w.version <= Run(w, es).version
    ensures w.version > 0 && (forall e :: e in es ==> !e.BumpVersion?) ==> Run(w, es).version == w.version
    ensures w.keys == map[] ==> Step(w, ManagerRestart).version == w.version
  {
    hide Step;
    OnlyBumpsCount(w, ManagerRestart);
    if es != [] {
      VersionCountsBumps(w, es[..|es| - 1]);
      OnlyBumpsCount(Run(w, es[..|es| - 1]), es[|es| - 1]);
      assert es[|es| - 1] in es;
    }
  }

  lemma OnlyBumpsCount(w: World, e: Event)
    ensures w.version <= Step(w, e).version
    ensures !e.BumpVersion? && w.version > 0 ==> Step(w, e).version == w.version
    ensures w.keys == map[] ==> Step(w, ManagerRestart).version == w.version
  {
    hide HeartbeatNode, AcceptsConfig;
  }

  // ---------------------------------------------------------------- late follow-up heartbeats

  /** A follow-up heartbeat can arrive late and report a hash the agent no longer runs.  The version
      alone does not protect against it; clearing the hashes at the end of an edit does. */
  predicate Graceful(w: World, e: Event) {
    match e
    case Heartbeat(_, _, out) => out == AllWritten || !out.applied
    case ManagerRestart => w.edits == map[] && w.nodesFile == w.nodes
    case _ => true
  }

  predicate GracefulRun(w: World, es: seq<Event>) {
    forall i :: 0 <= i < |es| ==> Graceful(Run(w, es[..i]), es[i])
  }

  /** Some edit of a key the configuration names is anywhere between its first and its last call. */
  predicate InEdit(w: World, cfg: Option<NodeConfig>) {
    cfg.Some? && exists e :: e in w.edits && Names(cfg.value, w.edits[e].name)
  }

  /** Outside such an edit a recorded hash is the hash of the current rendering. */
  predicate ExactAt(w: World, id: string) {
    Known(w, id) && AgentOk(w.agents[id])
    && (w.nodes[id].config.Some? && w.nodes[id].hash != NoHash && !InEdit(w, w.nodes[id].config) ==>
          w.nodes[id].hash == Current(w.nodes[id].config, w.keys))
  }

  lemma EditsStayInProgress(w: World, w': World, cfg: Option<NodeConfig>)
    requires forall e :: e in w.edits ==> e in w'.edits && w'.edits[e].name == w.edits[e].name
    ensures InEdit(w, cfg) ==> InEdit(w', cfg)
  {}

  lemma KeyEditKeepsExact(w: World, edit: nat, name: string, k: Option<DnsKey>, id: string)
    requires ExactAt(w, id) && edit !in w.edits
    ensures ExactAt(w.(keys := WithKey(w.keys, name, k), edits := w.edits[edit := Saved(name)]), id)
  {
    var w' := w.(keys := WithKey(w.keys, name, k), edits := w.edits[edit := Saved(name)]);
    var n := w.nodes[id];
    EditsStayInProgress(w, w', n.config);
    if n.config.Some? && !InEdit(w', n.config) {
      assert edit in w'.edits;
      CardsFrame(n.config.value.cards, w.keys, name, k);
    }
  }

  lemma InvalidateKeepsExact(w: World, edit: nat, id: string)
    requires ExactAt(w, id) && edit in w.edits && w.edits[edit].Bumped?
    ensures ExactAt(Step(w, Invalidate(edit)), id)
  {
    var name := w.edits[edit].name;
    var n := w.nodes[id];
    if n.config.Some? && InEdit(w, n.config) && !Names(n.config.value, name) {
      var e :| e in w.edits && Names(n.config.value, w.edits[e].name);
      assert e in w.edits - {edit};
    }
    if n.config.Some? && Names(n.config.value, name) {
      var i :| 0 <= i < |n.config.value.cards| && n.config.value.cards[i].dnsKey == name;
      assert n.config.value.cards[i] in n.config.value.cards;
    }
  }

  lemma BumpKeepsExact(w: World, edit: nat, id: string)
    requires ExactAt(w, id) && edit in w.edits && w.edits[edit].Saved?
    ensures ExactAt(Step(w, BumpVersion(edit)), id)
  {
    EditsStayInProgress(w, Step(w, BumpVersion(edit)), w.nodes[id].config);
  }

  lemma StepKeepsExact(w: World, e: Event, id: string)
    requires ExactAt(w, id) && Graceful(w, e)
    ensures ExactAt(Step(w, e), id)
  {
    match e
    case SaveKey(edit, name, req) =>
      if edit !in w.edits { KeyEditKeepsExact(w, edit, name, Some(EditedKey(w.keys, name, req)), id); }
    case DeleteKey(edit, name) =>
      if edit !in w.edits { KeyEditKeepsExact(w, edit, name, None, id); }
    case BumpVersion(edit) =>
      if edit in w.edits && w.edits[edit].Saved? { BumpKeepsExact(w, edit, id); }
    case Invalidate(edit) =>
      if edit in w.edits && w.edits[edit].Bumped? { InvalidateKeepsExact(w, edit, id); }
    case _ =>
      AwakeAgent(w.agents[id]);
  }

  lemma {:induction false} RunKeepsExact(w: World, es: seq<Event>, id: string)
    requires ExactAt(w, id) && GracefulRun(w, es)
    ensures ExactAt(Run(w, es), id)
  {
    if es != [] {
      var n := |es| - 1;
      forall i | 0 <= i < n ensures Graceful(Run(w, es[..n][..i]), es[..n][i]) {
        assert es[..n][..i] == es[..i];
      }
      RunKeepsExact(w, es[..n], id);
      StepKeepsExact(Run(w, es[..n]), es[n], id);
    }
  }

  /** Safety with follow-up heartbeats that report any hash at any time: outside the whole of an edit
      of a key the node names, silence again means the agent is current. */
  lemma SilenceMeansCurrentDespiteLateReports(w0: World, es: seq<Event>, id: string)
    requires Initial(w0, id) && GracefulRun(w0, es)
    ensures var w := Run(w0, es);
            Known(w, id)
            && (w.nodes[id].approved && w.nodes[id].config.Some? && !InEdit(w, w.nodes[id].config)
                && Answer(w, id) == Response(None, None)
                ==> Render(w.nodes[id].config.value, w.keys).Success?
                    && Wake(w.agents[id]).running == Some(Render(w.nodes[id].config.value, w.keys).value))
  {
    RunKeepsExact(w0, es, id);
    AwakeAgent(Run(w0, es).agents[id]);
  }

  lemma DeliveredHeartbeatSettlesAnyway(w: World, id: string, cfg: NodeConfig, r: Rendering)
    requires ExactAt(w, id) && w.nodes[id].approved && w.nodes[id].config == Some(cfg)
    requires Render(cfg, w.keys) == Success(r) && !InEdit(w, Some(cfg))
    ensures Settled(Step(w, Heartbeat(id, true, AllWritten)), id, cfg, r)
  {
    AwakeAgent(w.agents[id]);
  }

  /** Convergence after a run with such follow-up heartbeats: outside the whole of an edit one delivered
      heartbeat is enough, and later late reports do no harm either. */
  lemma OneHeartbeatConvergesDespiteLateReports(w0: World, es: seq<Event>, id: string, cfg: NodeConfig,
                                                r: Rendering, later: seq<Event>)
    requires Initial(w0, id) && GracefulRun(w0, es)
    requires var w := Run(w0, es);
             id in w.nodes && w.nodes[id].approved && w.nodes[id].config == Some(cfg)
             && Render(cfg, w.keys) == Success(r) && !InEdit(w, Some(cfg))
    requires forall i :: 0 <= i < |later| ==> Quiet(later[i])
    ensures var w' := Run(Step(Run(w0, es), Heartbeat(id, true, AllWritten)), later);
            Known(w', id) && Answer(w', id) == Response(None, None) && Wake(w'.agents[id]).running == Some(r)
  {
    hide Step, Render, Settled, ExactAt;
    var w := Run(w0, es);
    InitialIsExact(w0, id);
    RunKeepsExact(w0, es, id);
    DeliveredHeartbeatSettlesAnyway(w, id, cfg, r);
    var w1 := Step(w, Heartbeat(id, true, AllWritten));
    RunKeepsSettled(w1, later, id, cfg, r);
    SettledIsSilent(Run(w1, later), id, cfg, r);
  }

  lemma InitialIsExact(w: World, id: string)
    requires Initial(w, id)
    ensures ExactAt(w, id)
  {}

  // ---------------------------------------------------------------- the write assumption is needed

  /** An agent that applies b but cannot write b's hash keeps reporting a; if the configuration is then
      set back to a, the manager stays silent although the agent runs b.  So silence after this
      sequence means "current" exactly when a and b render alike. */
  lemma FailedHashWriteThenRevert(w: World, id: string, a: NodeConfig, b: NodeConfig, ra: Rendering, rb: Rendering)
    requires Settled(w, id, a, ra) && w.agents[id].loaded && w.nodes[id].approved
    requires Render(b, w.keys) == Success(rb) && AcceptsConfig(a, w.keys) && AcceptsConfig(b, w.keys)
    ensures var w' := Step(Step(Step(w, SaveConfig(id, b, true)), Heartbeat(id, true, Outcome(true, true, false))),
                           SaveConfig(id, a, true));
            Known(w', id) && Answer(w', id) == Response(None, None)
            && w'.nodes[id].config == Some(a) && Render(a, w'.keys) == Success(ra)
            && (Wake(w'.agents[id]).running == Some(ra) <==> ra == rb)
  {
    hide Render, AcceptsConfig;
    var w1 := Step(w, SaveConfig(id, b, true));
    var w2 := Step(w1, Heartbeat(id, true, Outcome(true, true, false)));
    assert Wake(w1.agents[id]).lastHash == Sha256(ra);
    assert w2.agents[id].running == Some(rb) && w2.agents[id].lastHash == Sha256(ra);
  }
}
