/** Delivery of the DNS configuration from the manager to its agents.

    The manager keeps for every node the saved configuration, the hash it last pushed and the global
    DNS-key version it last rendered with; the agent echoes the hash it runs.  A heartbeat renders
    again only when the echo differs, the recorded hash was cleared, or the key version moved on.
    This module proves that these three signals never leave an agent silently out of date. */
module ConfigPush {

  import opened Prelude
  import opened ConfigRender

  // ---------------------------------------------------------------- state

  datatype Node = Node(approved: bool, config: Option<NodeConfig>, hash: Digest, keysVersion: nat)

  /** A delivered rendering carries its own hash; an error is reported back for diagnosis. */
  datatype Response = Response(config: Option<Rendering>, error: Option<RenderError>)

  /** In memory: lastHash, running, loaded.  On disk: cacheFile, hashFile. */
  datatype AgentState = AgentState(lastHash: Digest, running: Option<Rendering>, loaded: bool,
                                   cacheFile: Option<Rendering>, hashFile: Digest)

  /** How far an agent gets with a configuration it was sent. */
  datatype Outcome = Outcome(applied: bool, cacheWritten: bool, hashWritten: bool)

  const AllWritten := Outcome(true, true, true)

  // ---------------------------------------------------------------- manager steps

  predicate NeedsRender(n: Node, version: nat, reported: Digest) {
    n.config.Some? && (reported != n.hash || n.hash == NoHash || n.keysVersion < version)
  }

  /** The config section of a heartbeat, as a function of the record and the reported hash. */
  function HeartbeatNode(n: Node, keys: Keys, version: nat, reported: Digest): (Node, Response) {
    if !n.approved || !NeedsRender(n, version, reported) then (n, Response(None, None))
    else
      match Render(n.config.value, keys)
      case Failure(e) => (n, Response(None, Some(e)))
      case Success(r) =>
        if Sha256(r) == reported then (n.(keysVersion := version), Response(None, None))
        else (n.(keysVersion := version, hash := Sha256(r)), Response(Some(r), None))
  }

  /** Every key a saved configuration names must exist when it is saved. */
  predicate AcceptsConfig(cfg: NodeConfig, keys: Keys) {
    (cfg.keyName != "" ==> cfg.keyName in keys)
    && forall i :: 0 <= i < |cfg.cards| && cfg.cards[i].dnsKey != "" ==> cfg.cards[i].dnsKey in keys
  }

  function SavedNode(n: Node, cfg: NodeConfig, bindingsExist: bool): Node {
    n.(config := Some(cfg), hash := NoHash, approved := n.approved || bindingsExist)
  }

  /** Saving an existing key keeps the credentials the request leaves empty. */
  function EditedKey(keys: Keys, name: string, req: DnsKey): DnsKey {
    if name in keys then
      DnsKey(if req.provider != "" then req.provider else keys[name].provider,
             if req.id != "" then req.id else keys[name].id,
             if req.secret != "" then req.secret else keys[name].secret)
    else req
  }

  predicate Affected(n: Node, name: string, provider: string) {
    n.config.Some? && UsesKey(n.config.value, name, provider)
  }

  function Cleared(n: Node, name: string, provider: string): Node {
    if Affected(n, name, provider) then n.(hash := NoHash) else n
  }

  type Nodes = map<string, Node>

  function ClearAll(nodes: Nodes, name: string, provider: string): (r: Nodes)
    ensures r.Keys == nodes.Keys
    ensures forall id :: id in nodes ==> r[id] == Cleared(nodes[id], name, provider)
  {
    map id | id in nodes :: Cleared(nodes[id], name, provider)
  }

  function ProviderOf(keys: Keys, name: string): string {
    if name in keys then keys[name].provider else ""
  }

  /** The manager's store and handlers.  Records live in `nodes`; `nodesFile` is what is on disk. */
  class Manager {
    var keys: Keys
    var keysVersion: nat
    var nodes: Nodes
    var nodesFile: Nodes

    constructor (keys: Keys, keysVersion: nat, nodes: Nodes)
      ensures this.keys == keys && this.keysVersion == keysVersion
      ensures this.nodes == nodes && this.nodesFile == nodes
    {
      this.keys, this.keysVersion := keys, keysVersion;
      this.nodes, this.nodesFile := nodes, nodes;
    }

    /** The config part of handleHeartbeat; an unknown node is refused. */
    method Heartbeat(id: string, reported: Digest) returns (resp: Option<Response>)
      modifies this
      ensures keys == old(keys) && keysVersion == old(keysVersion)
      ensures id !in old(nodes) ==> resp == None && nodes == old(nodes) && nodesFile == old(nodesFile)
      ensures id in old(nodes) ==>
        var (n, r) := HeartbeatNode(old(nodes)[id], keys, keysVersion, reported);
        resp == Some(r) && nodes == old(nodes)[id := n] && nodesFile == nodes
    {
      if id !in nodes { return None; }
      var rec := nodes[id];
      var config: Option<Rendering>, error: Option<RenderError> := None, None;
      if rec.approved {
        var version := keysVersion;
        if rec.config.Some? && (reported != rec.hash || rec.hash == NoHash || rec.keysVersion < version) {
          var rendered := RenderConfig(rec.config.value, keys);
          if rendered.Failure? {
            error := Some(rendered.error);
          } else {
            rec := rec.(keysVersion := version);
            if Sha256(rendered.value) != reported {
              config := Some(rendered.value);
              rec := rec.(hash := Sha256(rendered.value));
            }
          }
        }
      }
      nodes := nodes[id := rec];
      nodesFile := nodes;
      resp := Some(Response(config, error));
    }

    /** handleSaveNodeConfig.  The record is changed before the certificate bindings are checked, so
        a request refused for a missing certificate still changes the record in memory. */
    method SaveConfig(id: string, cfg: NodeConfig, bindingsExist: bool) returns (ok: bool)
      modifies this
      ensures keys == old(keys) && keysVersion == old(keysVersion)
      ensures ok <==> id in old(nodes) && AcceptsConfig(cfg, keys) && bindingsExist
      ensures id in old(nodes) && AcceptsConfig(cfg, keys) ==>
        nodes == old(nodes)[id := SavedNode(old(nodes)[id], cfg, bindingsExist)]
      ensures !(id in old(nodes) && AcceptsConfig(cfg, keys)) ==> nodes == old(nodes)
      ensures nodesFile == if ok then nodes else old(nodesFile)
    {
      if id !in nodes || (cfg.keyName != "" && cfg.keyName !in keys) { return false; }
      var i := 0;
      while i < |cfg.cards|
        invariant 0 <= i <= |cfg.cards|
        invariant forall j :: 0 <= j < i && cfg.cards[j].dnsKey != "" ==> cfg.cards[j].dnsKey in keys
      {
        if cfg.cards[i].dnsKey != "" && cfg.cards[i].dnsKey !in keys { return false; }
        i := i + 1;
      }
      var rec := nodes[id].(config := Some(cfg), hash := NoHash);
      if !bindingsExist {
        nodes := nodes[id := rec];
        return false;
      }
      nodes := nodes[id := rec.(approved := true)];
      nodesFile := nodes;
      ok := true;
    }

    /** First part of handleSaveDNSKey. */
    method SaveKey(name: string, req: DnsKey)
      modifies this`keys
      ensures keys == old(keys)[name := EditedKey(old(keys), name, req)]
    {
      var k := req;
      if name in keys {
        k := keys[name];
        if req.provider != "" { k := k.(provider := req.provider); }
        if req.id != "" { k := k.(id := req.id); }
        if req.secret != "" { k := k.(secret := req.secret); }
      }
      keys := keys[name := k];
    }

    /** BumpDNSKeysVersion. */
    method BumpVersion()
      modifies this`keysVersion
      ensures keysVersion == old(keysVersion) + 1
    {
      keysVersion := keysVersion + 1;
    }

    /** InvalidateConfigHashesForDNSKey: the file is rewritten only if some record referred to the key. */
    method Invalidate(name: string)
      modifies this`nodes, this`nodesFile
      ensures nodes == ClearAll(old(nodes), name, ProviderOf(keys, name))
      ensures nodesFile == if exists id :: id in old(nodes) && Affected(old(nodes)[id], name, ProviderOf(keys, name))
                           then nodes else old(nodesFile)
    {
      var provider := if name in keys then keys[name].provider else "";
      var pending := nodes.Keys;
      var changed := false;
      while pending != {}
        invariant pending <= nodes.Keys == old(nodes).Keys
        invariant forall id :: id in nodes ==>
          nodes[id] == if id in pending then old(nodes)[id] else Cleared(old(nodes)[id], name, provider)
        invariant changed <==>
          exists id :: id in old(nodes) && id !in pending && Affected(old(nodes)[id], name, provider)
        invariant nodesFile == old(nodesFile)
      {
        var id :| id in pending;
        var rec := nodes[id];
        if rec.config.Some? && UsesKey(rec.config.value, name, provider) {
          nodes := nodes[id := rec.(hash := NoHash)];
          changed := true;
        }
        pending := pending - {id};
      }
      if changed { nodesFile := nodes; }
    }
  }

  // ---------------------------------------------------------------- agent steps

  /** What a heartbeat loads before it reports: the hash if it has none, the cache once per process. */
  function Wake(a: AgentState): AgentState {
    a.(lastHash := if a.lastHash == NoHash then a.hashFile else a.lastHash,
       running := if !a.loaded && a.cacheFile.Some? then a.cacheFile else a.running,
       loaded := true)
  }

  /** What an awake agent does with the configuration of a response. */
  function Receive(a: AgentState, config: Option<Rendering>, out: Outcome): AgentState {
    if config.None? || Sha256(config.value) == a.lastHash || !out.applied then a
    else if !out.cacheWritten then a.(running := config)
    else if !out.hashWritten then a.(running := config, cacheFile := config)
    else AgentState(Sha256(config.value), config, a.loaded, config, Sha256(config.value))
  }

  function Restarted(a: AgentState): AgentState {
    a.(lastHash := NoHash, running := None, loaded := false)
  }

  class Agent {
    var lastHash: Digest
    var running: Option<Rendering>
    var loaded: bool
    var cacheFile: Option<Rendering>
    var hashFile: Digest

    function View(): AgentState reads this {
      AgentState(lastHash, running, loaded, cacheFile, hashFile)
    }

    constructor ()
      ensures View() == AgentState(NoHash, None, false, None, NoHash)
    {
      lastHash, running, loaded, cacheFile, hashFile := NoHash, None, false, None, NoHash;
    }

    /** The start of doHeartbeat, up to building the request. */
    method Report() returns (reported: Digest)
      modifies this
      ensures View() == Wake(old(View())) && reported == lastHash
    {
      if lastHash == NoHash { lastHash := hashFile; }
      if !loaded {
        loaded := true;
        if cacheFile.Some? { running := cacheFile; }
      }
      reported := lastHash;
    }

    /** The config section of doHeartbeat after a response arrived: cache first, then hash. */
    method Apply(config: Option<Rendering>, out: Outcome)
      modifies this
      ensures View() == Receive(old(View()), config, out)
    {
      if config.None? || Sha256(config.value) == lastHash || !out.applied { return; }
      running := config;
      var cacheWritten := false;
      if out.cacheWritten {
        cacheFile := config;
        cacheWritten := true;
      }
      if cacheWritten && out.hashWritten {
        hashFile := Sha256(config.value);
        lastHash := Sha256(config.value);
      }
    }
  }

  // ---------------------------------------------------------------- what the steps do, in plain terms

  /** When a heartbeat brings a configuration: to an approved node with a saved one that renders, if the agent
      reports something else, the recorded hash was cleared, or the keys moved on - and it is not what the
      agent reports.  An unapproved node gets nothing and its record stays. */
  lemma PushedExactly(n: Node, keys: Keys, version: nat, reported: Digest)
    ensures var (n', resp) := HeartbeatNode(n, keys, version, reported);
            var asked := n.approved && n.config.Some?
                         && (reported != n.hash || n.hash == NoHash || n.keysVersion < version);
            (resp.error.Some? <==> asked && Render(n.config.value, keys).Failure?)
            && (resp.error.Some? ==> resp.error.value == Render(n.config.value, keys).error)
            && (resp.config.Some? <==>
                  asked && Render(n.config.value, keys).Success?
                  && Sha256(Render(n.config.value, keys).value) != reported)
            && (resp.config.Some? ==> resp.config.value == Render(n.config.value, keys).value)
            && n'.hash == (if resp.config.Some? then Sha256(resp.config.value) else n.hash)
            && n'.keysVersion == (if asked && Render(n.config.value, keys).Success? then version else n.keysVersion)
            && n'.config == n.config && n'.approved == n.approved
  {}

  /** A request is refused exactly for a key it names - for all or for one card - that does not exist. */
  lemma RefusedConfigExactly(cfg: NodeConfig, keys: Keys)
    ensures !AcceptsConfig(cfg, keys) <==>
              exists name :: name != "" && name !in keys
                             && (name == cfg.keyName || exists c :: c in cfg.cards && c.dnsKey == name)
  {
    if !AcceptsConfig(cfg, keys) {
      if cfg.keyName == "" || cfg.keyName in keys {
        var i :| 0 <= i < |cfg.cards| && cfg.cards[i].dnsKey != "" && cfg.cards[i].dnsKey !in keys;
        assert cfg.cards[i] in cfg.cards;
      }
    } else {
      assert forall c :: c in cfg.cards && c.dnsKey != "" ==> c.dnsKey in keys;
    }
  }

  /** A saved configuration is in force at once, is pushed anew, and approves the node if its certificates
      exist. */
  lemma SavedIsInForce(n: Node, cfg: NodeConfig, bindingsExist: bool)
    ensures var n' := SavedNode(n, cfg, bindingsExist);
            n'.config == Some(cfg) && n'.hash == NoHash && n'.keysVersion == n.keysVersion
            && (n'.approved <==> n.approved || bindingsExist)
  {}

  /** An edited key has what the request says; what it leaves blank stays. */
  lemma EditKeepsBlankFields(keys: Keys, name: string, req: DnsKey)
    ensures var k := EditedKey(keys, name, req);
            (req.provider != "" || name !in keys ==> k.provider == req.provider)
            && (req.id != "" || name !in keys ==> k.id == req.id)
            && (req.secret != "" || name !in keys ==> k.secret == req.secret)
    ensures name in keys ==>
              var k := EditedKey(keys, name, req);
              (req.provider == "" ==> k.provider == keys[name].provider)
              && (req.id == "" ==> k.id == keys[name].id) && (req.secret == "" ==> k.secret == keys[name].secret)
  {}

  /** Which nodes a key edit concerns: those that name the key, for all or for one card, and those that ask for
      its provider. */
  lemma ConcernsExactly(n: Node, name: string, provider: string)
    ensures Cleared(n, name, provider) == n.(hash := NoHash) <==>
              n.hash == NoHash
              || (n.config.Some?
                  && (n.config.value.keyName == name || (provider != "" && n.config.value.provider == provider)
                      || exists c :: c in n.config.value.cards && c.dnsKey == name))
    ensures Cleared(n, name, provider) == n || Cleared(n, name, provider) == n.(hash := NoHash)
  {}

  /** How far the agent gets when something fails: nothing happens without applying; the hash it reports
      changes only after both files are written. */
  lemma FailuresStopTheAgent(a: AgentState, r: Rendering, out: Outcome)
    ensures var a' := Receive(a, Some(r), out);
            var news := Sha256(r) != a.lastHash && out.applied;
            a'.running == (if news then Some(r) else a.running)
            && a'.cacheFile == (if news && out.cacheWritten then Some(r) else a.cacheFile)
            && a'.hashFile == (if news && out.cacheWritten && out.hashWritten then Sha256(r) else a.hashFile)
            && a'.lastHash == (if news && out.cacheWritten && out.hashWritten then Sha256(r) else a.lastHash)
            && a'.loaded == a.loaded && Receive(a, None, out) == a
  {}

  /** After a restart an agent runs and reports what is in its files. */
  lemma RestartReads(a: AgentState)
    ensures var a' := Wake(Restarted(a));
            a'.running == a.cacheFile && a'.lastHash == a.hashFile
            && a'.cacheFile == a.cacheFile && a'.hashFile == a.hashFile
    ensures var r := Restarted(a); r == AgentState(NoHash, None, false, a.cacheFile, a.hashFile)
  {}

  /** The cache is read once: an agent at work goes on with what it runs, whatever is in the file. */
  lemma AtWorkGoesOn(a: AgentState)
    ensures a.loaded ==> Wake(a).running == a.running
    ensures a.lastHash != NoHash ==> Wake(a).lastHash == a.lastHash
  {}
}
