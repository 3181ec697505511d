/** The DNS keys of the manager: one file in plain or sealed form, a write-through cache, and the one
    map they stand for. */
module DnsKeyStore {

  import opened Prelude
  import opened Crypto

  datatype KeyRecord = KeyRecord(name: string, provider: string, id: string, secret: string,
                                 updatedAt: string, usedBy: seq<string>)

  type Keys = map<string, KeyRecord>

  /** dns_keys.json.  V1 is a plain object; V2 has the sentinel entry and a sealed object. */
  datatype KeyFile = Absent | Garbage | V1(keys: Keys) | V2(ct: Cipher<Keys>)

  const SENTINEL := "__ddnskey_enc"

  datatype ReadError = NotJson | BadEnvelope | CannotDecrypt

  /** readDNSKeysFile: the sentinel decides the form, by its key alone. */
  function Read(file: KeyFile, k: Key): Result<Option<Keys>, ReadError> {
    match file
    case Absent => Success(None)
    case Garbage => Failure(NotJson)
    case V1(keys) => if SENTINEL in keys then Failure(BadEnvelope) else Success(Some(keys))
    case V2(ct) =>
      match Decrypt(k, DnsKeysAtRest, ct)
      case None => Failure(CannotDecrypt)
      case Some(keys) => Success(Some(keys))
  }

  function Content(file: KeyFile, k: Key): Keys {
    match Read(file, k)
    case Success(Some(keys)) => keys
    case _ => map[]
  }

  /** Everything the store holds: the file, copies made by the migration, the cache, and a source of nonces. */
  datatype State = State(file: KeyFile, backups: seq<Keys>, cache: Option<Keys>, nonce: nat)

  /** The one map the state stands for. */
  function Meaning(s: State, k: Key): Keys {
    if s.cache.Some? then s.cache.value else Content(s.file, k)
  }

  /** The file can be read, and the cache, if any, is what it says. */
  ghost predicate Good(s: State, k: Key) {
    Read(s.file, k).Success? && Meaning(s, k) == Content(s.file, k) && SENTINEL !in Meaning(s, k)
  }

  // ---------------------------------------------------------------- the operations on the map

  function RemoveFirst(s: seq<string>, x: string): (r: seq<string>)
    ensures forall y :: y in r ==> y in s
    ensures forall y :: y in s && y != x ==> y in r
  {
    if s == [] then [] else if s[0] == x then s[1..] else [s[0]] + RemoveFirst(s[1..], x)
  }

  /** handleSaveDNSKey on an existing key: blank credentials leave the old ones. */
  function Edited(keys: Keys, name: string, provider: string, id: string, secret: string, now: string): Keys {
    if name in keys then
      var r := keys[name];
      keys[name := r.(provider := provider, id := if id != "" then id else r.id,
                      secret := if secret != "" then secret else r.secret, updatedAt := now)]
    else keys[name := KeyRecord(name, provider, id, secret, now, [])]
  }

  function Tracked(keys: Keys, name: string, node: string): Keys {
    if name in keys && node !in keys[name].usedBy
    then keys[name := keys[name].(usedBy := keys[name].usedBy + [node])] else keys
  }

  function Untracked(keys: Keys, node: string): Keys {
    map name | name in keys :: keys[name].(usedBy := RemoveFirst(keys[name].usedBy, node))
  }

  // ---------------------------------------------------------------- the operations on the state

  function Seal(s: State, keys: Keys, k: Key): State {
    s.(file := V2(Encrypt(k, DnsKeysAtRest, s.nonce, keys)), nonce := s.nonce + 1)
  }

  /** loadDNSKeysToCache: a plain file is copied aside and rewritten sealed, unless the copy fails; a failed
      rewrite is ignored. */
  function Loaded(s: State, k: Key, copyOk: bool, writeOk: bool): Option<State> {
    if s.cache.Some? then Some(s)
    else
      match Read(s.file, k)
      case Failure(_) => None
      case Success(None) => Some(s.(cache := Some(map[])))
      case Success(Some(keys)) =>
        var s' := if s.file.V1? && copyOk then
                    var c := s.(backups := s.backups + [keys]);
                    if writeOk then Seal(c, keys, k) else c
                  else s;
        Some(s'.(cache := Some(keys)))
  }

  function Saved(s: State, keys: Keys, k: Key): State { Seal(s, keys, k).(cache := Some(keys)) }

  function WrittenPlain(s: State, keys: Keys): State { s.(file := V1(keys), cache := Some(keys)) }

  datatype Op =
    | Load
    | SaveKey(name: string, provider: string, id: string, secret: string, now: string)
    | Delete(name: string)
    | Track(name: string, node: string)
    | RemoveNode(node: string)
    | Restart

  /** One operation; copyOk and writeOk say whether the migration it may trigger can write its files. */
  function Step(s: State, k: Key, op: Op, copyOk: bool, writeOk: bool): State {
    if op.Restart? then s.(cache := None)
    else
      match Loaded(s, k, copyOk, writeOk)
      case None => if op.SaveKey? then Saved(s, Edited(map[], op.name, op.provider, op.id, op.secret, op.now), k) else s
      case Some(t) =>
        var keys := t.cache.value;
        match op
        case SaveKey(name, provider, id, secret, now) => Saved(t, Edited(keys, name, provider, id, secret, now), k)
        case Delete(name) => if name in keys then WrittenPlain(t, keys - {name}) else t
        case Track(name, node) =>
          if Tracked(keys, name, node) != keys then WrittenPlain(t, Tracked(keys, name, node)) else t
        case RemoveNode(node) =>
          if Untracked(keys, node) != keys then WrittenPlain(t, Untracked(keys, node)) else t
        case Load => t
  }

  /** What an operation does to the map. */
  function Apply(m: Keys, op: Op): Keys {
    match op
    case SaveKey(name, provider, id, secret, now) => Edited(m, name, provider, id, secret, now)
    case Delete(name) => m - {name}
    case Track(name, node) => Tracked(m, name, node)
    case RemoveNode(node) => Untracked(m, node)
    case Load => m
    case Restart => m
  }

  // ---------------------------------------------------------------- the store itself

  class KeyStore {
    const storageKey: Key
    var file: KeyFile
    var backups: seq<Keys>
    var cache: Option<Keys>
    var nonce: nat

    ghost function Snapshot(): State
      reads this
    {
      State(file, backups, cache, nonce)
    }

    constructor (storageKey: Key, file: KeyFile, nonce: nat)
      ensures this.storageKey == storageKey && Snapshot() == State(file, [], None, nonce)
    {
      this.storageKey, this.file, this.nonce := storageKey, file, nonce;
      backups, cache := [], None;
    }

    method LoadToCache(copyOk: bool, writeOk: bool) returns (ok: bool)
      modifies this
      ensures ok <==> Loaded(old(Snapshot()), storageKey, copyOk, writeOk).Some?
      ensures Snapshot() == if ok then Loaded(old(Snapshot()), storageKey, copyOk, writeOk).value else old(Snapshot())
      ensures ok ==> cache.Some?
    {
      if cache.Some? { return true; }
      var r := Read(file, storageKey);
      if r.Failure? { return false; }
      if r.value.Some? && file.V1? && copyOk {
        backups := backups + [r.value.value];
        if writeOk {
          file := V2(Encrypt(storageKey, DnsKeysAtRest, nonce, r.value.value));
          nonce := nonce + 1;
        }
      }
      cache := Some(if r.value.Some? then r.value.value else map[]);
      ok := true;
    }

    /** SaveDNSKeys always writes the sealed form. */
    method Save(keys: Keys)
      modifies this
      ensures Snapshot() == Saved(old(Snapshot()), keys, storageKey)
    {
      file := V2(Encrypt(storageKey, DnsKeysAtRest, nonce, keys));
      nonce := nonce + 1;
      cache := Some(keys);
    }

    /** handleSaveDNSKey up to the save; known says whether the provider is a supported one. */
    method HandleSaveKey(name: string, provider: string, id: string, secret: string, now: string, known: bool,
                         copyOk: bool, writeOk: bool)
      returns (accepted: bool)
      modifies this
      ensures accepted <==> provider != "" && known
      ensures Snapshot() == if accepted
                         then Step(old(Snapshot()), storageKey,
                                   SaveKey(if name == "" then provider else name, provider, id, secret, now),
                                   copyOk, writeOk)
                         else old(Snapshot())
    {
      var keyName := if name == "" then provider else name;
      if keyName == "" || provider == "" || !known { return false; }
      var loaded := LoadToCache(copyOk, writeOk);
      var keys := if loaded then cache.value else map[];
      Save(Edited(keys, keyName, provider, id, secret, now));
      accepted := true;
    }

    /** DeleteDNSKeyAtomic writes the remaining keys in plain form. */
    method DeleteKey(name: string, copyOk: bool, writeOk: bool) returns (found: bool)
      modifies this
      ensures Snapshot() == Step(old(Snapshot()), storageKey, Delete(name), copyOk, writeOk)
      ensures found <==> Loaded(old(Snapshot()), storageKey, copyOk, writeOk).Some?
                         && name in Loaded(old(Snapshot()), storageKey, copyOk, writeOk).value.cache.value
    {
      hide Read;
      var loaded := LoadToCache(copyOk, writeOk);
      if !loaded || name !in cache.value { return false; }
      var keys := cache.value;
      var rest: Keys := map[];
      var todo := keys.Keys;
      while todo != {}
        modifies {}
        invariant todo <= keys.Keys
        invariant rest == map n | n in keys && n !in todo && n != name :: keys[n]
      {
        HasMember(todo);
        var n :| n in todo;
        if n != name { rest := rest[n := keys[n]]; }
        todo := todo - {n};
      }
      assert rest == keys - {name};
      file := V1(rest);
      cache := Some(rest);
      found := true;
    }

    /** TrackDNSKeyUsage writes, in plain form, only when the node is new to the key. */
    method TrackUsage(name: string, node: string, copyOk: bool, writeOk: bool)
      modifies this
      ensures Snapshot() == Step(old(Snapshot()), storageKey, Track(name, node), copyOk, writeOk)
    {
      hide Read;
      var loaded := LoadToCache(copyOk, writeOk);
      if !loaded || name !in cache.value { return; }
      var rec := cache.value[name];
      var i := 0;
      while i < |rec.usedBy|
        modifies {}
        invariant 0 <= i <= |rec.usedBy| && node !in rec.usedBy[..i]
      {
        if rec.usedBy[i] == node { return; }
        i := i + 1;
      }
      var keys := cache.value[name := rec.(usedBy := rec.usedBy + [node])];
      assert keys[name] != rec;
      cache := Some(keys);
      file := V1(keys);
    }

    /** RemoveNodeFromDNSKeys writes, in plain form, only when some key listed the node. */
    method RemoveUser(node: string, copyOk: bool, writeOk: bool)
      modifies this
      ensures Snapshot() == Step(old(Snapshot()), storageKey, RemoveNode(node), copyOk, writeOk)
    {
      hide Read, RemoveFirst;
      var loaded := LoadToCache(copyOk, writeOk);
      if !loaded { return; }
      var before := cache.value;
      var keys, changed := before, false;
      var todo := before.Keys;
      while todo != {}
        modifies {}
        invariant todo <= before.Keys && keys.Keys == before.Keys
        invariant forall n :: n in before ==> keys[n] == if n in todo then before[n] else Untracked(before, node)[n]
        invariant changed <==> keys != before
      {
        HasMember(todo);
        var n :| n in todo;
        var usedBy := RemoveUserFrom(before[n].usedBy, node);
        if usedBy != before[n].usedBy {
          keys, changed := keys[n := before[n].(usedBy := usedBy)], true;
          assert keys[n] != before[n];
        }
        todo := todo - {n};
      }
      assert keys == Untracked(before, node);
      if changed {
        cache := Some(keys);
        file := V1(keys);
      }
    }

    /** The inner loop: the first occurrence goes. */
    method RemoveUserFrom(usedBy: seq<string>, node: string) returns (r: seq<string>)
      ensures r == RemoveFirst(usedBy, node)
    {
      var i := 0;
      while i < |usedBy|
        invariant 0 <= i <= |usedBy|
        invariant RemoveFirst(usedBy, node) == usedBy[..i] + RemoveFirst(usedBy[i..], node)
      {
        if usedBy[i] == node { return usedBy[..i] + usedBy[i + 1..]; }
        i := i + 1;
      }
      r := usedBy;
    }

    /** A restart, or ResetCaches: only the files survive. */
    method Reset()
      modifies this
      ensures Snapshot() == Step(old(Snapshot()), storageKey, Restart, true, true)
    {
      cache := None;
    }
  }

  // ---------------------------------------------------------------- one map behind every state

  lemma LoadedKeepsMeaning(s: State, k: Key, copyOk: bool, writeOk: bool)
    requires Good(s, k)
    ensures Loaded(s, k, copyOk, writeOk).Some?
    ensures var t := Loaded(s, k, copyOk, writeOk).value; Good(t, k) && t.cache == Some(Meaning(s, k))
  {}

  /** Every operation acts on the meaning alone, whichever form the file has, whether or not the cache is
      filled, and whether or not a migration takes place or completes. */
  lemma StepRefines(s: State, k: Key, op: Op, copyOk: bool, writeOk: bool)
    requires Good(s, k) && (op.SaveKey? ==> op.name != SENTINEL)
    ensures Good(Step(s, k, op, copyOk, writeOk), k)
    ensures Meaning(Step(s, k, op, copyOk, writeOk), k) == Apply(Meaning(s, k), op)
  {
    hide Loaded, RemoveFirst;
    LoadedKeepsMeaning(s, k, copyOk, writeOk);
  }

  datatype Call = Call(op: Op, copyOk: bool, writeOk: bool)

  function Run(s: State, k: Key, calls: seq<Call>): State {
    if calls == [] then s
    else
      var c := calls[|calls| - 1];
      Step(Run(s, k, calls[..|calls| - 1]), k, c.op, c.copyOk, c.writeOk)
  }

  function ApplyAll(m: Keys, calls: seq<Call>): Keys {
    if calls == [] then m else Apply(ApplyAll(m, calls[..|calls| - 1]), calls[|calls| - 1].op)
  }

  /** The keys read after any sequence of saves, deletions, trackings, removals and restarts are those of
      one map to which the same operations were applied. */
  lemma {:induction false} RunRefines(s: State, k: Key, calls: seq<Call>)
    requires Good(s, k) && forall c :: c in calls && c.op.SaveKey? ==> c.op.name != SENTINEL
    ensures Good(Run(s, k, calls), k) && Meaning(Run(s, k, calls), k) == ApplyAll(Meaning(s, k), calls)
  {
    hide Step, Good, Meaning;
    if calls != [] {
      var c := calls[|calls| - 1];
      assert c in calls;
      RunRefines(s, k, calls[..|calls| - 1]);
      StepRefines(Run(s, k, calls[..|calls| - 1]), k, c.op, c.copyOk, c.writeOk);
    }
  }

  lemma BothForms(keys: Keys, k: Key, nonce: nat)
    requires SENTINEL !in keys
    ensures var plain := State(V1(keys), [], None, nonce); Good(plain, k) && Meaning(plain, k) == keys
    ensures var sealed := State(V2(Encrypt(k, DnsKeysAtRest, nonce, keys)), [], None, nonce + 1);
            Good(sealed, k) && Meaning(sealed, k) == keys
  {}

  /** So no caller can tell a plain file from a sealed one with the same keys, before or after migration. */
  lemma FormIsUnobservable(keys: Keys, k: Key, nonce: nat, calls: seq<Call>, calls': seq<Call>)
    requires SENTINEL !in keys && forall c :: c in calls && c.op.SaveKey? ==> c.op.name != SENTINEL
    requires |calls| == |calls'| && forall i :: 0 <= i < |calls| ==> calls[i].op == calls'[i].op
    ensures var plain := State(V1(keys), [], None, nonce);
            var sealed := State(V2(Encrypt(k, DnsKeysAtRest, nonce, keys)), [], None, nonce + 1);
            Meaning(Run(plain, k, calls), k) == Meaning(Run(sealed, k, calls'), k)
  {
    assert forall c :: c in calls' && c.op.SaveKey? ==> c.op.name != SENTINEL by {
      forall c | c in calls' && c.op.SaveKey? ensures c.op.name != SENTINEL {
        var i :| 0 <= i < |calls'| && calls'[i] == c;
        assert calls[i] in calls;
      }
    }
    var plain := State(V1(keys), [], None, nonce);
    var sealed := State(V2(Encrypt(k, DnsKeysAtRest, nonce, keys)), [], None, nonce + 1);
    BothForms(keys, k, nonce);
    hide Good, Meaning, Run, ApplyAll, Encrypt;
    RunRefines(plain, k, calls);
    RunRefines(sealed, k, calls');
    SameOpsSameMap(keys, calls, calls');
  }

  lemma {:induction false} SameOpsSameMap(m: Keys, calls: seq<Call>, calls': seq<Call>)
    requires |calls| == |calls'| && forall i :: 0 <= i < |calls| ==> calls[i].op == calls'[i].op
    ensures ApplyAll(m, calls) == ApplyAll(m, calls')
  {
    if calls != [] { SameOpsSameMap(m, calls[..|calls| - 1], calls'[..|calls| - 1]); }
  }

  /** The name must be excluded: exactly a plain file with a key of that name cannot be read back. */
  lemma SentinelKeyIsUnreadable(keys: Keys, k: Key)
    ensures Read(V1(keys), k).Success? <==> "__ddnskey_enc" !in keys
    ensures forall nonce :: Read(V2(Encrypt(k, DnsKeysAtRest, nonce, keys)), k) == Success(Some(keys))
  {}

  /** The migration replaces the plain file only after copying it aside. */
  lemma MigrationCopiesFirst(s: State, k: Key, copyOk: bool, writeOk: bool)
    requires s.file.V1? && Loaded(s, k, copyOk, writeOk).Some?
    ensures var t := Loaded(s, k, copyOk, writeOk).value;
            t.file != s.file ==> t.backups == s.backups + [s.file.keys] && Read(t.file, k) == Success(Some(s.file.keys))
  {}

  /** A file that cannot be read is left as it is by everything but a save, which replaces it. */
  lemma UnreadableFile(s: State, k: Key, op: Op, copyOk: bool, writeOk: bool)
    requires s.cache.None? && Read(s.file, k).Failure?
    ensures Step(s, k, op, copyOk, writeOk) != s <==> op.SaveKey?
    ensures op.SaveKey? ==>
              Content(Step(s, k, op, copyOk, writeOk).file, k)
              == Edited(map[], op.name, op.provider, op.id, op.secret, op.now)
  {}

  // ---------------------------------------------------------------- when the file is sealed

  /** An operation that writes the keys out in plain form, given the keys there are: a deletion, tracking or
      removal that changes something. */
  predicate WritesPlain(m: Keys, op: Op) {
    (op.Delete? || op.Track? || op.RemoveNode?) && Apply(m, op) != m
  }

  /** An operation that leaves a sealed file unless it writes a plain one: a save, or a first access whose
      migration completes. */
  predicate Seals(c: Call, cached: bool) {
    c.op.SaveKey? || (!c.op.Restart? && !cached && c.copyOk && c.writeOk)
  }

  lemma DeletionChanges(m: Keys, name: string)
    ensures m - {name} != m <==> name in m
  {
    if name in m { assert name !in m - {name}; } else { assert m - {name} == m; }
  }

  /** The credentials are not always sealed at rest.  Exactly: the file is plain after an operation that
      writes it so, or if it was plain and the operation does not seal it. */
  lemma PlainAfterStepExactly(s: State, k: Key, op: Op, copyOk: bool, writeOk: bool)
    requires Good(s, k)
    ensures Step(s, k, op, copyOk, writeOk).file.V1? <==>
              WritesPlain(Meaning(s, k), op)
              || (s.file.V1? && !Seals(Call(op, copyOk, writeOk), s.cache.Some?))
    ensures Step(s, k, op, copyOk, writeOk).cache.Some? <==> !op.Restart?
  {
    LoadedKeepsMeaning(s, k, copyOk, writeOk);
    LoadedForm(s, k, copyOk, writeOk);
    if op.Delete? { DeletionChanges(Meaning(s, k), op.name); }
    hide Loaded, Good, Meaning, Tracked, Untracked, Encrypt;
  }

  lemma LoadedForm(s: State, k: Key, copyOk: bool, writeOk: bool)
    requires Loaded(s, k, copyOk, writeOk).Some?
    ensures Loaded(s, k, copyOk, writeOk).value.file.V1? <==> s.file.V1? && (s.cache.Some? || !copyOk || !writeOk)
  {}

  /** Is there a cache before call j? */
  predicate Cached(s: State, calls: seq<Call>, j: nat)
    requires j < |calls|
  {
    if j == 0 then s.cache.Some? else !calls[j - 1].op.Restart?
  }

  /** The file is plain at the start, or call i - 1 writes it plain. */
  predicate PlainAt(s: State, k: Key, calls: seq<Call>, i: nat)
    requires i <= |calls|
  {
    if i == 0 then s.file.V1? else WritesPlain(ApplyAll(Meaning(s, k), calls[..i - 1]), calls[i - 1].op)
  }

  ghost predicate PlainSince(s: State, k: Key, calls: seq<Call>, i: nat)
    requires i <= |calls|
  {
    PlainAt(s, k, calls, i) && forall j :: i <= j < |calls| ==> !Seals(calls[j], Cached(s, calls, j))
  }

  /** Over every sequence of operations: the file is plain in the end exactly if it was plain at some point
      and nothing has sealed it since. */
  lemma {:induction false} PlainAfterRunExactly(s: State, k: Key, calls: seq<Call>)
    requires Good(s, k) && forall c :: c in calls && c.op.SaveKey? ==> c.op.name != SENTINEL
    ensures Run(s, k, calls).file.V1? <==> exists i :: 0 <= i <= |calls| && PlainSince(s, k, calls, i)
    ensures calls != [] ==> (Run(s, k, calls).cache.Some? <==> !calls[|calls| - 1].op.Restart?)
  {
    hide Step, Good, Meaning, Seals, WritesPlain, ApplyAll;
    if calls == [] {
      assert PlainSince(s, k, calls, 0) <==> s.file.V1?;
    } else {
      var n := |calls| - 1;
      var init, c := calls[..n], calls[n];
      assert c in calls;
      PlainAfterRunExactly(s, k, init);
      RunRefines(s, k, init);
      PlainAfterStepExactly(Run(s, k, init), k, c.op, c.copyOk, c.writeOk);
      assert Cached(s, calls, n) == Run(s, k, init).cache.Some?;
      forall i | 0 <= i <= n
        ensures PlainSince(s, k, calls, i) <==> PlainSince(s, k, init, i) && !Seals(c, Cached(s, calls, n))
      {
        PlainSincePrefix(s, k, calls, i);
      }
      assert PlainSince(s, k, calls, n + 1) <==> WritesPlain(ApplyAll(Meaning(s, k), init), c.op);
    }
  }

  lemma PlainSincePrefix(s: State, k: Key, calls: seq<Call>, i: nat)
    requires calls != [] && i < |calls|
    ensures var n := |calls| - 1;
            PlainSince(s, k, calls, i) <==> PlainSince(s, k, calls[..n], i) && !Seals(calls[n], Cached(s, calls, n))
  {
    hide Meaning, Seals, WritesPlain, ApplyAll;
    var n := |calls| - 1;
    var init := calls[..n];
    assert i > 0 ==> init[..i - 1] == calls[..i - 1];
    assert forall j :: 0 <= j < n ==> init[j] == calls[j] && Cached(s, init, j) == Cached(s, calls, j);
  }

  // ---------------------------------------------------------------- the users of a key

  predicate NoRepeats(s: seq<string>) { s == [] || (s[0] !in s[1..] && NoRepeats(s[1..])) }

  ghost predicate UsersOnce(m: Keys) { forall n :: n in m ==> NoRepeats(m[n].usedBy) }

  lemma {:induction false} RemoveFirstOfNoRepeats(s: seq<string>, x: string)
    requires NoRepeats(s)
    ensures NoRepeats(RemoveFirst(s, x)) && x !in RemoveFirst(s, x)
  {
    if s != [] && s[0] != x {
      RemoveFirstOfNoRepeats(s[1..], x);
      assert RemoveFirst(s, x)[1..] == RemoveFirst(s[1..], x);
    }
  }

  lemma {:induction false} AppendNew(s: seq<string>, x: string)
    requires NoRepeats(s) && x !in s
    ensures NoRepeats(s + [x])
  {
    if s != [] {
      AppendNew(s[1..], x);
      assert (s + [x])[1..] == s[1..] + [x];
    }
  }

  lemma ApplyKeepsUsersOnce(m: Keys, op: Op)
    requires UsersOnce(m)
    ensures UsersOnce(Apply(m, op))
    ensures op.RemoveNode? ==> forall n :: n in Apply(m, op) ==> op.node !in Apply(m, op)[n].usedBy
  {
    if op.Track? && op.name in m && op.node !in m[op.name].usedBy { AppendNew(m[op.name].usedBy, op.node); }
    if op.RemoveNode? {
      forall n | n in m
        ensures NoRepeats(RemoveFirst(m[n].usedBy, op.node)) && op.node !in RemoveFirst(m[n].usedBy, op.node)
      {
        RemoveFirstOfNoRepeats(m[n].usedBy, op.node);
      }
    }
  }

  /** No key lists a node twice, and removing a node removes it from every key, although only the first
      occurrence in each list is deleted. */
  lemma {:induction false} RemovalIsComplete(m: Keys, calls: seq<Call>, node: string)
    requires UsersOnce(m)
    ensures UsersOnce(ApplyAll(m, calls))
    ensures var m' := Apply(ApplyAll(m, calls), RemoveNode(node)); forall n :: n in m' ==> node !in m'[n].usedBy
  {
    hide UsersOnce, Apply;
    if calls != [] {
      RemovalIsComplete(m, calls[..|calls| - 1], node);
      ApplyKeepsUsersOnce(ApplyAll(m, calls[..|calls| - 1]), calls[|calls| - 1].op);
    }
    ApplyKeepsUsersOnce(ApplyAll(m, calls), RemoveNode(node));
  }

  // ---------------------------------------------------------------- what the operations come to

  /** The last value given for a field in the saves of a key, blanks aside. */
  function LastGiven(calls: seq<Call>, name: string, field: Op -> string, first: string): string {
    if calls == [] then first
    else
      var op := calls[|calls| - 1].op;
      if op.SaveKey? && op.name == name && field(op) != "" then field(op)
      else LastGiven(calls[..|calls| - 1], name, field, first)
  }

  function IdOf(op: Op): string { if op.SaveKey? then op.id else "" }

  function SecretOf(op: Op): string { if op.SaveKey? then op.secret else "" }

  predicate IsSaved(calls: seq<Call>, name: string) {
    calls != []
    && var op := calls[|calls| - 1].op;
       (op.SaveKey? && op.name == name) || IsSaved(calls[..|calls| - 1], name)
  }

  /** A key that is never deleted is there once it was saved, with the last id and the last secret that were
      not left blank. */
  lemma {:induction false} LastCredentialsStay(m: Keys, calls: seq<Call>, name: string)
    requires forall c :: c in calls ==> c.op != Delete(name)
    ensures var m' := ApplyAll(m, calls);
            (name in m' <==> name in m || IsSaved(calls, name))
            && (name in m' ==>
                  m'[name].id == LastGiven(calls, name, IdOf, if name in m then m[name].id else "")
                  && m'[name].secret == LastGiven(calls, name, SecretOf, if name in m then m[name].secret else ""))
            && (name !in m' ==> LastGiven(calls, name, IdOf, "") == "" == LastGiven(calls, name, SecretOf, ""))
  {
    hide RemoveFirst;
    if calls != [] {
      assert calls[|calls| - 1] in calls;
      LastCredentialsStay(m, calls[..|calls| - 1], name);
    }
  }

  /** A save decides provider and time, gives a new key its name and no users, and leaves the users of an old
      one and every other key alone. */
  lemma SaveDecides(m: Keys, name: string, provider: string, id: string, secret: string, now: string)
    ensures var m' := Apply(m, SaveKey(name, provider, id, secret, now));
            m'.Keys == m.Keys + {name} && m'[name].provider == provider && m'[name].updatedAt == now
            && m'[name].name == (if name in m then m[name].name else name)
            && m'[name].usedBy == (if name in m then m[name].usedBy else [])
            && forall n :: n in m && n != name ==> m'[n] == m[n]
  {}

  /** Whether the last tracking or removal of the node was a tracking with this key. */
  predicate LastTracked(calls: seq<Call>, name: string, node: string, first: bool) {
    if calls == [] then first
    else
      var op := calls[|calls| - 1].op;
      if op == Track(name, node) then true
      else if op == RemoveNode(node) then false
      else LastTracked(calls[..|calls| - 1], name, node, first)
  }

  /** The users of a key that is never deleted: exactly the nodes tracked since they were last removed. */
  lemma {:induction false} UsersExactly(m: Keys, calls: seq<Call>, name: string, node: string)
    requires UsersOnce(m) && name in m && forall c :: c in calls ==> c.op != Delete(name)
    ensures var m' := ApplyAll(m, calls);
            UsersOnce(m') && name in m'
            && (node in m'[name].usedBy <==> LastTracked(calls, name, node, node in m[name].usedBy))
  {
    hide UsersOnce, RemoveFirst;
    if calls != [] {
      var init, op := calls[..|calls| - 1], calls[|calls| - 1].op;
      assert calls[|calls| - 1] in calls;
      UsersExactly(m, init, name, node);
      ApplyKeepsUsersOnce(ApplyAll(m, init), op);
    }
  }

  /** Users stay in the order in which they came, the newest last. */
  lemma {:induction false} RemovalKeepsOrder(a: seq<string>, x: string, b: seq<string>)
    requires x !in a
    ensures RemoveFirst(a + [x] + b, x) == a + b
    ensures RemoveFirst(a, x) == a
  {
    if a == [] {
      assert a + [x] + b == [x] + b;
    } else {
      assert (a + [x] + b)[1..] == a[1..] + [x] + b;
      RemovalKeepsOrder(a[1..], x, b);
    }
  }

  lemma TrackingAppends(m: Keys, name: string, node: string)
    requires name in m
    ensures Apply(m, Track(name, node)) ==
              if node in m[name].usedBy then m else m[name := m[name].(usedBy := m[name].usedBy + [node])]
  {}
}
