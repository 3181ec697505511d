/** The node records of the manager: a cache of shared records in memory, written through to one file. */
module NodeStore {

  import opened Prelude

  /** The seven fields a heartbeat reports. */
  datatype Beat = Beat(lastSeen: int, status: string, hardware: Option<string>, configHash: string,
                       configSentAt: int, configKeysVersion: nat, dnsFailures: nat)

  /** Everything else about a node. */
  datatype Profile = Profile(fingerprint: string, passwordHash: string, createdAt: int, approved: bool,
                             bindings: seq<(string, string)>, configYaml: string, tags: seq<string>,
                             notes: string, forcePush: set<string>)

  /** A record as it is written to the file. */
  datatype Saved = Saved(beat: Beat, profile: Profile)

  type Table = map<string, Saved>

  datatype NodesFile = Absent | Corrupt | Table(table: Table)

  /** What putting a record does to the table: a known node takes over the seven fields only. */
  function Put(t: Table, id: string, rec: Saved): Table {
    t[id := if id in t then t[id].(beat := rec.beat) else rec]
  }

  class NodeRecord {
    var beat: Beat
    var profile: Profile

    constructor (beat: Beat, profile: Profile)
      ensures this.beat == beat && this.profile == profile
    {
      this.beat, this.profile := beat, profile;
    }

    function Value(): Saved
      reads this
    {
      Saved(beat, profile)
    }
  }

  class Store {
    var cache: map<string, NodeRecord>
    var loaded: bool
    var file: NodesFile

    /** The records in memory, as they would be written. */
    function Encoded(): (t: Table)
      reads this`cache, cache.Values
    {
      map id | id in cache :: cache[id].Value()
    }

    /** The node table the store stands for. */
    ghost function Current(): (t: Table)
      reads this, cache.Values
    {
      if loaded then Encoded() else if file.Table? then file.table else map[]
    }

    /** No record is cached under two names. */
    ghost predicate Unshared()
      reads this
    {
      forall a, b :: a in cache && b in cache && cache[a] == cache[b] ==> a == b
    }

    /** The record is nobody's yet. */
    ghost predicate NotCached(rec: NodeRecord)
      reads this
    {
      forall x :: x in cache ==> cache[x] != rec
    }

    constructor (file: NodesFile)
      ensures !loaded && this.file == file && cache == map[]
    {
      this.file, loaded, cache := file, false, map[];
    }

    /** loadNodesToCache: the first access after a start reads the file into fresh records. */
    method LoadToCache() returns (ok: bool)
      requires !loaded
      modifies this
      ensures file == old(file) && ok == (loaded && !file.Corrupt?) && (ok <==> !file.Corrupt?)
      ensures !ok ==> cache == old(cache) && !loaded
      ensures ok ==> Encoded() == (if file.Table? then file.table else map[]) && Unshared()
      ensures ok ==> forall id :: id in cache ==> fresh(cache[id])
    {
      if file.Corrupt? { return false; }
      var table := if file.Table? then file.table else map[];
      var nodes: map<string, NodeRecord> := map[];
      var rest := table.Keys;
      while rest != {}
        modifies {}
        invariant rest <= table.Keys && nodes.Keys == table.Keys - rest
        invariant forall id :: id in nodes ==> fresh(nodes[id]) && nodes[id].Value() == table[id]
        invariant forall a, b :: a in nodes && b in nodes && nodes[a] == nodes[b] ==> a == b
      {
        HasMember(rest);
        var id :| id in rest;
        var rec := new NodeRecord(table[id].beat, table[id].profile);
        nodes := nodes[id := rec];
        rest := rest - {id};
      }
      cache, loaded, ok := nodes, true, true;
    }

    method EnsureLoaded() returns (ok: bool)
      modifies this
      ensures file == old(file) && ok == loaded && (loaded <==> old(loaded) || !file.Corrupt?)
      ensures old(loaded) || !loaded ==> cache == old(cache)
      ensures !old(loaded) && loaded ==> Unshared() && forall id :: id in cache ==> fresh(cache[id])
      ensures loaded ==> Encoded() == old(Current())
    {
      ok := true;
      if !loaded { ok := LoadToCache(); }
    }

    /** saveNodesLocked: the file takes over the records in memory. */
    method SaveNodes(writeOk: bool)
      modifies this`file
      ensures file == if writeOk then Table(Encoded()) else old(file)
    {
      if writeOk { file := Table(Encoded()); }
    }

    /** LoadNodes hands out the cached records themselves in a map of its own. */
    method LoadNodes() returns (nodes: Option<map<string, NodeRecord>>)
      modifies this
      ensures nodes.Some? <==> loaded
      ensures nodes.Some? ==> nodes.value == cache
      ensures old(loaded) ==> loaded && cache == old(cache)
      ensures !old(loaded) && loaded ==> Unshared() && forall id :: id in cache ==> fresh(cache[id])
      ensures loaded ==> Current() == old(Current())
      ensures file == old(file) && (!loaded ==> file.Corrupt? && cache == old(cache))
    {
      var ok := EnsureLoaded();
      if !ok { return None; }
      nodes := Some(cache);
    }

    /** GetNode: the record is the cached one, not a copy. */
    method GetNode(id: string) returns (r: Option<NodeRecord>)
      modifies this
      ensures r.Some? <==> loaded && id in cache
      ensures r.Some? ==> r.value == cache[id]
      ensures old(loaded) ==> loaded && cache == old(cache)
      ensures !old(loaded) && loaded ==> Unshared() && forall x :: x in cache ==> fresh(cache[x])
      ensures loaded ==> Current() == old(Current())
      ensures file == old(file)
    {
      var nodes := LoadNodes();
      if nodes.Some? && id in nodes.value { r := Some(nodes.value[id]); } else { r := None; }
    }

    /** The in-memory half of putNodeInternal: a record put onto a known node is not stored, its seven
        fields are copied. */
    method Merge(id: string, rec: NodeRecord)
      requires loaded
      modifies this`cache, if id in cache then {cache[id]} else {}
      ensures id in old(cache) ==>
                cache == old(cache) && cache[id].profile == old(cache[id].profile)
                && cache[id].beat == old(rec.beat)
      ensures id !in old(cache) ==> cache == old(cache)[id := rec]
      ensures old(Unshared()) ==> Encoded() == Put(old(Encoded()), id, old(rec.Value()))
      ensures old(Unshared()) && (id in old(cache) || old(NotCached(rec))) ==> Unshared()
    {
      if id in cache {
        var existing := cache[id];
        existing.beat := rec.beat;
      } else {
        cache := cache[id := rec];
      }
    }

    /** PutNode.  When the write fails the records in memory have changed all the same. */
    method PutNode(id: string, rec: NodeRecord, writeOk: bool) returns (ok: bool)
      modifies this, if loaded && id in cache then {cache[id]} else {}
      ensures ok == (loaded && writeOk)
      ensures if ok then file == Table(Encoded()) else file == old(file)
      ensures loaded <==> old(loaded) || !old(file).Corrupt?
      ensures !loaded ==> cache == old(cache)
      ensures old(loaded) && id in old(cache) ==>
                cache == old(cache) && cache[id].profile == old(cache[id].profile)
                && cache[id].beat == old(rec.beat)
      ensures old(loaded) && id !in old(cache) ==> cache == old(cache)[id := rec]
      ensures loaded && (old(loaded) ==> old(Unshared())) ==>
                Encoded() == Put(old(Current()), id, old(rec.Value()))
      ensures loaded && (old(loaded) ==> old(Unshared()) && (id in old(cache) || old(NotCached(rec)))) ==> Unshared()
    {
      hide Encoded, NodeRecord.Value, Put;
      var read := EnsureLoaded();
      if !read { return false; }
      Merge(id, rec);
      SaveNodes(writeOk);
      ok := writeOk;
    }

    lemma KeysAgree(id: string)
      ensures id in Encoded() <==> id in cache
      ensures id in cache ==> Encoded()[id] == Saved(cache[id].beat, cache[id].profile)
    {}

    method Drop(id: string)
      modifies this`cache
      ensures cache == old(cache) - {id} && Encoded() == old(Encoded()) - {id}
      ensures id in old(cache) <==> id in old(Encoded())
    {
      cache := cache - {id};
    }

    /** DeleteNode: an unknown node is an error and writes nothing. */
    method DeleteNode(id: string, writeOk: bool) returns (ok: bool)
      modifies this
      ensures loaded <==> old(loaded) || !old(file).Corrupt?
      ensures ok <==> loaded && id in old(Current()) && writeOk
      ensures if ok then file == Table(Encoded()) else file == old(file)
      ensures loaded ==> Encoded() == old(Current()) - {id}
      ensures old(loaded) ==> cache == old(cache) - {id}
      ensures loaded && (old(loaded) ==> old(Unshared())) ==> Unshared()
    {
      hide Encoded, NodeRecord.Value, Put;
      var read := EnsureLoaded();
      if !read { return false; }
      KeysAgree(id);
      if id !in cache { return false; }
      Drop(id);
      SaveNodes(writeOk);
      ok := writeOk;
    }

    /** The process starts again: only the file survives. */
    method Restart()
      modifies this
      ensures !loaded && file == old(file)
      ensures old(file) == Table(old(Current())) ==> Current() == old(Current())
    {
      loaded, cache := false, map[];
    }

    // -------------------------------------------------------------- the handlers that edit in place

    /** The pattern of these handlers: the cached record is changed and put back. */
    method EditAndPut(id: string, rec: NodeRecord, profile: Profile, writeOk: bool) returns (ok: bool)
      requires loaded && Unshared() && id in cache && cache[id] == rec
      modifies this, rec
      ensures ok == writeOk
      ensures loaded && cache == old(cache) && Unshared()
      ensures Encoded() == old(Encoded())[id := Saved(old(rec.beat), profile)]
      ensures if ok then file == Table(Encoded()) else file == old(file)
    {
      rec.profile := profile;
      assert Encoded() == old(Encoded())[id := Saved(old(rec.beat), profile)];
      ok := PutNode(id, rec, writeOk);
    }

    /** handleApproveNode (bindings, tags and notes only where given): the edit reaches the file whole
        because the record edited is the cached one. */
    method Approve(id: string, bindings: Option<seq<(string, string)>>, tags: Option<seq<string>>,
                   notes: Option<string>, writeOk: bool)
      returns (ok: bool)
      requires loaded ==> Unshared()
      modifies this, if loaded && id in cache then {cache[id]} else {}
      ensures ok <==> loaded && id in old(Current()) && writeOk
      ensures loaded ==> Unshared() &&
                         Encoded() == Profiled(old(Current()), id, p => Approved(p, bindings, tags, notes))
      ensures file == if ok then Table(Encoded()) else old(file)
    {
      hide Encoded, NodeRecord.Value, Approved;
      var r := GetNode(id);
      if r.None? {
        if loaded { KeysAgree(id); }
        return false;
      }
      var rec := r.value;
      KeysAgree(id);
      var p := rec.profile;
      if bindings.Some? { p := p.(bindings := bindings.value); }
      if tags.Some? { p := p.(tags := tags.value); }
      if notes.Some? { p := p.(notes := notes.value); }
      p := p.(approved := true);
      ApprovedIs(rec.profile, p, bindings, tags, notes);
      ok := EditAndPut(id, rec, p, writeOk);
    }

    /** handleForcePushCert sets the flag in the cached record and puts the record back. */
    method ForcePush(id: string, bundle: string, writeOk: bool) returns (ok: bool)
      requires loaded ==> Unshared()
      modifies this, if loaded && id in cache then {cache[id]} else {}
      ensures ok <==> loaded && id in old(Current()) && writeOk
      ensures loaded ==> Unshared() && Encoded() == Profiled(old(Current()), id, p => Forced(p, bundle))
      ensures loaded && id in old(Current()) ==>
                id in Encoded() && OnlyFlagged(old(Current())[id], Encoded()[id], bundle)
      ensures file == if ok then Table(Encoded()) else old(file)
    {
      hide Encoded, NodeRecord.Value;
      var r := GetNode(id);
      if r.None? {
        if loaded { KeysAgree(id); }
        return false;
      }
      var rec := r.value;
      KeysAgree(id);
      ok := EditAndPut(id, rec, rec.profile.(forcePush := rec.profile.forcePush + {bundle}), writeOk);
    }

    /** The same edit made on a copy of the record does not arrive: the put takes over the seven fields,
        which are the same, and the flag is lost. */
    method ForcePushOnCopy(id: string, bundle: string) returns (ok: bool)
      requires loaded && Unshared() && id in cache
      modifies this, cache[id]
      ensures ok && file == Table(old(Encoded())) && Encoded() == old(Encoded())
    {
      var r := cache[id];
      var copy := new NodeRecord(r.beat, r.profile.(forcePush := r.profile.forcePush + {bundle}));
      ok := PutNode(id, copy, true);
    }
  }

  function Approved(p: Profile, bindings: Option<seq<(string, string)>>, tags: Option<seq<string>>,
                    notes: Option<string>): Profile {
    p.(approved := true,
       bindings := if bindings.Some? then bindings.value else p.bindings,
       tags := if tags.Some? then tags.value else p.tags,
       notes := if notes.Some? then notes.value else p.notes)
  }

  function Forced(p: Profile, bundle: string): Profile { p.(forcePush := p.forcePush + {bundle}) }

  /** One more bundle is flagged, and nothing else is different. */
  predicate OnlyFlagged(before: Saved, after: Saved, bundle: string) {
    after == before.(profile := before.profile.(forcePush := after.profile.forcePush))
    && bundle in after.profile.forcePush && after.profile.forcePush - {bundle} == before.profile.forcePush - {bundle}
  }

  lemma ApprovedIs(p: Profile, q: Profile, bindings: Option<seq<(string, string)>>, tags: Option<seq<string>>,
                   notes: Option<string>)
    requires q.approved && q == p.(approved := true, bindings := q.bindings, tags := q.tags, notes := q.notes)
    requires q.bindings == if bindings.Some? then bindings.value else p.bindings
    requires q.tags == if tags.Some? then tags.value else p.tags
    requires q.notes == if notes.Some? then notes.value else p.notes
    ensures q == Approved(p, bindings, tags, notes)
  {}

  /** The table after an edit of one known node's profile. */
  function Profiled(t: Table, id: string, edit: Profile -> Profile): Table {
    if id in t then t[id := t[id].(profile := edit(t[id].profile))] else t
  }

  // ---------------------------------------------------------------- sequences of operations

  datatype Op = PutRec(id: string, rec: Saved) | Edit(id: string, profile: Profile) | Delete(id: string)

  function Apply(t: Table, op: Op): Table {
    match op
    case PutRec(id, rec) => Put(t, id, rec)
    case Edit(id, profile) => if id in t then t[id := t[id].(profile := profile)] else t
    case Delete(id) => t - {id}
  }

  function ApplyAll(t: Table, ops: seq<Op>): Table {
    if ops == [] then t else Apply(ApplyAll(t, ops[..|ops| - 1]), ops[|ops| - 1])
  }

  /** The beat of the last put of a node, and the profile of its last edit. */
  function LastBeat(ops: seq<Op>, id: string, b: Beat): Beat {
    if ops == [] then b
    else
      var op := ops[|ops| - 1];
      if op.PutRec? && op.id == id then op.rec.beat else LastBeat(ops[..|ops| - 1], id, b)
  }

  function LastProfile(ops: seq<Op>, id: string, p: Profile): Profile {
    if ops == [] then p
    else
      var op := ops[|ops| - 1];
      if op.Edit? && op.id == id then op.profile else LastProfile(ops[..|ops| - 1], id, p)
  }

  /** However heartbeats (puts of detached records) and edits of a known node interleave, neither
      overwrites the other: the beat is the last heartbeat's, the profile the last edit's. */
  lemma {:induction false} HeartbeatsAndEditsDoNotCollide(t: Table, ops: seq<Op>, id: string)
    requires id in t && Delete(id) !in ops
    ensures id in ApplyAll(t, ops)
    ensures ApplyAll(t, ops)[id] == Saved(LastBeat(ops, id, t[id].beat), LastProfile(ops, id, t[id].profile))
  {
    if ops != [] {
      HeartbeatsAndEditsDoNotCollide(t, ops[..|ops| - 1], id);
      assert ops[|ops| - 1] in ops;
    }
  }

  /** Nodes an operation does not name keep their record. */
  lemma {:induction false} OthersUntouched(t: Table, ops: seq<Op>, id: string)
    requires forall op :: op in ops ==> op.id != id
    ensures id in ApplyAll(t, ops) <==> id in t
    ensures id in t ==> ApplyAll(t, ops)[id] == t[id]
  {
    if ops != [] {
      OthersUntouched(t, ops[..|ops| - 1], id);
      assert ops[|ops| - 1] in ops;
    }
  }
}
