/** The storage key of the manager: creation, refusal to start without the right one, and everything on
    disk that is sealed under it. */
module StorageKey {

  import opened Prelude
  import opened Crypto
  import Dns = DnsKeyStore

  /** A secret string as a file holds it: empty, with a PEM header, other plain text, or sealed. */
  datatype Text = Blank | Pem(s: string) | Bare(s: string) | Ct(c: Cipher<Text>)

  datatype Account = Account(accountKey: Text, eabKey: Text)

  /** The entry pfx_password_enc of a bundle's metadata; it may be missing, or no text. */
  datatype PfxEnc = Missing | NoText | Enc(c: Cipher<string>)

  datatype Disk = Disk(keyFile: Option<Key>, dns: Dns.KeyFile, backups: seq<Dns.Keys>,
                       metas: map<string, PfxEnc>, accounts: seq<Account>)

  // ---------------------------------------------------------------- what depends on the key

  /** Everything that is not an empty string and has no PEM header is taken for ciphertext. */
  predicate LooksSealed(t: Text) { !t.Blank? && !t.Pem? }

  predicate DnsLooksSealed(f: Dns.KeyFile) { f.V2? || (f.V1? && Dns.SENTINEL in f.keys) }

  predicate NeedsKey(d: Disk) {
    DnsLooksSealed(d.dns)
    || (exists b :: b in d.metas && d.metas[b] != Missing)
    || exists a :: a in d.accounts && LooksSealed(a.accountKey)
  }

  predicate TextOpens(t: Text, k: Key) {
    LooksSealed(t) ==> t.Ct? && Decrypt(k, AcmeAtRest, t.c).Some?
  }

  predicate PfxOpens(e: PfxEnc, k: Key) { e.Enc? ==> Decrypt(k, PfxPasswordAtRest, e.c).Some? }

  /** All DNS keys, PFX passwords and account keys on disk can be read with the key. */
  predicate Decryptable(d: Disk, k: Key) {
    Dns.Read(d.dns, k).Success?
    && (forall b :: b in d.metas ==> PfxOpens(d.metas[b], k))
    && forall a :: a in d.accounts ==> TextOpens(a.accountKey, k)
  }

  // ---------------------------------------------------------------- the accounts file

  function SealText(t: Text, k: Key, nonce: nat): Text {
    if t.Blank? then t else Ct(Encrypt(k, AcmeAtRest, nonce, t))
  }

  function SealAccount(a: Account, k: Key, nonce: nat): Account {
    Account(SealText(a.accountKey, k, nonce), SealText(a.eabKey, k, nonce + 1))
  }

  function SealAll(accounts: seq<Account>, k: Key, nonce: nat): (r: seq<Account>)
    ensures |r| == |accounts|
    ensures forall i :: 0 <= i < |r| ==> r[i] == SealAccount(accounts[i], k, nonce)
  {
    if accounts == [] then []
    else SealAll(accounts[..|accounts| - 1], k, nonce) + [SealAccount(accounts[|accounts| - 1], k, nonce)]
  }

  function OpenText(t: Text, k: Key): Option<Text> {
    if !LooksSealed(t) then Some(t) else if t.Ct? then Decrypt(k, AcmeAtRest, t.c) else None
  }

  function OpenAccount(a: Account, k: Key): Option<Account> {
    var key := OpenText(a.accountKey, k);
    var eab := OpenText(a.eabKey, k);
    if key.Some? && eab.Some? then Some(Account(key.value, eab.value)) else None
  }

  function OpenAll(accounts: seq<Account>, k: Key): (r: Option<seq<Account>>)
    ensures r.Some? <==> forall i :: 0 <= i < |accounts| ==> OpenAccount(accounts[i], k).Some?
    ensures r.Some? ==> |r.value| == |accounts|
                        && forall i :: 0 <= i < |accounts| ==> OpenAccount(accounts[i], k) == Some(r.value[i])
  {
    if accounts == [] then Some([])
    else
      var init := OpenAll(accounts[..|accounts| - 1], k);
      var last := OpenAccount(accounts[|accounts| - 1], k);
      if init.Some? && last.Some? then Some(init.value + [last.value]) else None
  }

  predicate HasPlainKey(accounts: seq<Account>) { exists a :: a in accounts && a.accountKey.Pem? }

  predicate HasCiphertext(accounts: seq<Account>) { exists a :: a in accounts && (a.accountKey.Ct? || a.eabKey.Ct?) }

  function Migrated(accounts: seq<Account>, k: Key, nonce: nat): seq<Account> {
    if HasPlainKey(accounts) then SealAll(accounts, k, nonce) else accounts
  }

  // ---------------------------------------------------------------- starting

  /** NewStore: the disk afterwards, and the key in use unless the start is refused. */
  function Start(d: Disk, random: Key, nonce: nat): (Disk, Option<Key>) {
    if d.keyFile.None? && NeedsKey(d) then (d, None)
    else
      var k := if d.keyFile.Some? then d.keyFile.value else random;
      var d' := d.(keyFile := Some(k));
      if !Decryptable(d', k) then (d', None)
      else (d'.(accounts := Migrated(d.accounts, k, nonce)), Some(k))
  }

  class StoreDir {
    var keyFile: Option<Key>
    var dns: Dns.KeyFile
    var backups: seq<Dns.Keys>
    var metas: map<string, PfxEnc>
    var accounts: seq<Account>

    ghost function Contents(): Disk
      reads this
    {
      Disk(keyFile, dns, backups, metas, accounts)
    }

    /** needsStorageKeyReason: looks at the form of the files only. */
    method NeedsStorageKey() returns (needed: bool)
      ensures needed <==> NeedsKey(Contents())
    {
      if DnsLooksSealed(dns) { return true; }
      var todo := metas.Keys;
      while todo != {}
        invariant todo <= metas.Keys
        invariant forall b :: b in metas && b !in todo ==> metas[b] == Missing
      {
        HasMember(todo);
        var b :| b in todo;
        if metas[b] != Missing { return true; }
        todo := todo - {b};
      }
      var i := 0;
      while i < |accounts|
        invariant 0 <= i <= |accounts|
        invariant forall j :: 0 <= j < i ==> !LooksSealed(accounts[j].accountKey)
      {
        if LooksSealed(accounts[i].accountKey) { return true; }
        i := i + 1;
      }
      needed := false;
    }

    /** verifyExistingCiphertextDecryptable: really opens what is there. */
    method VerifyExisting(k: Key) returns (ok: bool)
      ensures ok <==> Decryptable(Contents(), k)
    {
      if Dns.Read(dns, k).Failure? { return false; }
      var todo := metas.Keys;
      while todo != {}
        invariant todo <= metas.Keys
        invariant forall b :: b in metas && b !in todo ==> PfxOpens(metas[b], k)
      {
        HasMember(todo);
        var b :| b in todo;
        if !PfxOpens(metas[b], k) { return false; }
        todo := todo - {b};
      }
      var i := 0;
      while i < |accounts|
        invariant 0 <= i <= |accounts|
        invariant forall j :: 0 <= j < i ==> TextOpens(accounts[j].accountKey, k)
      {
        if !TextOpens(accounts[i].accountKey, k) { return false; }
        i := i + 1;
      }
      ok := true;
    }

    /** saveACMEAccountsLocked seals every entry, whatever it is. */
    method SaveAccounts(plain: seq<Account>, k: Key, nonce: nat)
      modifies this`accounts
      ensures accounts == SealAll(plain, k, nonce)
    {
      var sealed: seq<Account> := [];
      var i := 0;
      while i < |plain|
        modifies {}
        invariant 0 <= i <= |plain| && sealed == SealAll(plain[..i], k, nonce)
      {
        assert plain[..i + 1][..i] == plain[..i];
        sealed := sealed + [SealAccount(plain[i], k, nonce)];
        i := i + 1;
      }
      assert plain[..i] == plain;
      accounts := sealed;
    }

    /** migrateACMEKeysIfNeeded */
    method MigrateAccounts(k: Key, nonce: nat)
      modifies this`accounts
      ensures accounts == Migrated(old(accounts), k, nonce)
    {
      var i := 0;
      while i < |accounts| && !accounts[i].accountKey.Pem?
        modifies {}
        invariant 0 <= i <= |accounts|
        invariant forall j :: 0 <= j < i ==> !accounts[j].accountKey.Pem?
      {
        i := i + 1;
      }
      if i < |accounts| {
        assert accounts[i] in accounts;
        SaveAccounts(accounts, k, nonce);
      }
    }

    /** NewStore */
    method NewStore(random: Key, nonce: nat) returns (key: Option<Key>)
      modifies this
      ensures (Contents(), key) == Start(old(Contents()), random, nonce)
    {
      hide NeedsKey, Decryptable, Migrated;
      if keyFile.None? {
        var needed := NeedsStorageKey();
        if needed { return None; }
        keyFile := Some(random);
      }
      var k := keyFile.value;
      var ok := VerifyExisting(k);
      if !ok { return None; }
      MigrateAccounts(k, nonce);
      key := Some(k);
    }
  }

  // ---------------------------------------------------------------- one start

  /** A start succeeds exactly with the right key, or, when nothing on disk needs one and the DNS file is
      readable, with a new one. */
  lemma StartSucceedsExactly(d: Disk, random: Key, nonce: nat)
    ensures Start(d, random, nonce).1 ==
            match d.keyFile
            case Some(k) => if Decryptable(d, k) then Some(k) else None
            case None => if NeedsKey(d) || d.dns.Garbage? then None else Some(random)
  {}

  /** A refused start leaves every file as it was; only where there was no key and nothing needed one (and
      the DNS file is not JSON) has a key file been added. */
  lemma RefusalOverwritesNothing(d: Disk, random: Key, nonce: nat)
    requires Start(d, random, nonce).1.None?
    ensures var d' := Start(d, random, nonce).0;
            d' == d || (d.keyFile.None? && !NeedsKey(d) && d.dns.Garbage? && d' == d.(keyFile := Some(random)))
  {}

  /** A start that succeeds leaves everything readable under the key it loaded. */
  lemma StartMeansReadable(d: Disk, random: Key, nonce: nat)
    requires Start(d, random, nonce).1.Some?
    ensures var (d', k) := Start(d, random, nonce);
            Decryptable(d', k.value) && d'.keyFile == k && d'.dns == d.dns && d'.metas == d.metas
  {}

  /** What is written into the accounts file is what is read back, whatever the texts were. */
  lemma AccountsRoundTrip(accounts: seq<Account>, k: Key, nonce: nat)
    ensures OpenAll(SealAll(accounts, k, nonce), k) == Some(accounts)
  {
    var sealed := SealAll(accounts, k, nonce);
    assert forall i :: 0 <= i < |sealed| ==> OpenAccount(sealed[i], k) == Some(accounts[i]);
    assert OpenAll(sealed, k).value == accounts;
  }

  /** So the migration, which seals the entries as they stand, preserves the accounts exactly when it does
      not run or no entry was sealed already. */
  lemma MigrationKeepsAccountsExactly(accounts: seq<Account>, k: Key, nonce: nat)
    requires OpenAll(accounts, k).Some?
    ensures OpenAll(Migrated(accounts, k, nonce), k) == OpenAll(accounts, k)
            <==> !HasPlainKey(accounts) || !HasCiphertext(accounts)
  {
    if HasPlainKey(accounts) {
      AccountsRoundTrip(accounts, k, nonce);
      var plain := OpenAll(accounts, k).value;
      forall i | 0 <= i < |accounts|
        ensures plain[i] == accounts[i] <==> !accounts[i].accountKey.Ct? && !accounts[i].eabKey.Ct?
      {
        OpenedDiffers(accounts[i], k);
      }
      if !HasCiphertext(accounts) {
        assert forall i :: 0 <= i < |accounts| ==> accounts[i] in accounts;
        assert plain == accounts;
      } else {
        var a :| a in accounts && (a.accountKey.Ct? || a.eabKey.Ct?);
        var i :| 0 <= i < |accounts| && accounts[i] == a;
        assert plain[i] != accounts[i];
      }
    }
  }

  lemma OpenedDiffers(a: Account, k: Key)
    requires OpenAccount(a, k).Some?
    ensures OpenAccount(a, k).value == a <==> !a.accountKey.Ct? && !a.eabKey.Ct?
  {
    OpenedTextDiffers(a.accountKey, k);
    OpenedTextDiffers(a.eabKey, k);
  }

  lemma OpenedTextDiffers(t: Text, k: Key)
    requires OpenText(t, k).Some?
    ensures OpenText(t, k).value == t <==> !t.Ct?
  {
    if t.Ct? {
      assert t.c.plain < t;
    }
  }

  // ---------------------------------------------------------------- whole lives of a data directory

  datatype Session = Session(key: Key, cache: Option<Dns.Keys>)

  datatype World = World(disk: Disk, session: Option<Session>)

  datatype Event =
    | Launch(random: Key)
    | Stop
    | SetKeyFile(found: Option<Key>)
    | DnsCall(call: Dns.Call)
    | SaveMeta(bundle: string, password: Option<string>)
    | DropMeta(bundle: string)
    | PutAccounts(accounts: seq<Account>)

  function DnsState(w: World, nonce: nat): Dns.State
    requires w.session.Some?
  {
    Dns.State(w.disk.dns, w.disk.backups, w.session.value.cache, nonce)
  }

  /** One event; the key file is touched from outside only while the manager is stopped. */
  function Step(w: World, e: Event, nonce: nat): World {
    match e
    case Launch(random) =>
      if w.session.Some? then w
      else
        var (d, k) := Start(w.disk, random, nonce);
        World(d, if k.Some? then Some(Session(k.value, None)) else None)
    case Stop => w.(session := None)
    case SetKeyFile(found) => if w.session.Some? then w else w.(disk := w.disk.(keyFile := found))
    case DnsCall(c) =>
      if w.session.None? then w
      else
        var s := Dns.Step(DnsState(w, nonce), w.session.value.key, c.op, c.copyOk, c.writeOk);
        World(w.disk.(dns := s.file, backups := s.backups), Some(w.session.value.(cache := s.cache)))
    case SaveMeta(b, password) =>
      if w.session.None? then w
      else
        var enc := if password.None? then Missing
                   else Enc(Encrypt(w.session.value.key, PfxPasswordAtRest, nonce, password.value));
        w.(disk := w.disk.(metas := w.disk.metas[b := enc]))
    case DropMeta(b) => if w.session.None? then w else w.(disk := w.disk.(metas := w.disk.metas - {b}))
    case PutAccounts(accounts) =>
      if w.session.None? then w
      else w.(disk := w.disk.(accounts := SealAll(accounts, w.session.value.key, nonce)))
  }

  function Run(w: World, es: seq<Event>): World {
    if es == [] then w else Step(Run(w, es[..|es| - 1]), es[|es| - 1], |es|)
  }

  /** No DNS key has the reserved name. */
  predicate NamesOk(f: Dns.KeyFile) { f.V2? && f.ct.Sealed? ==> Dns.SENTINEL !in f.ct.plain }

  predicate EventOk(e: Event) { e.DnsCall? && e.call.op.SaveKey? ==> e.call.op.name != Dns.SENTINEL }

  /** While the manager runs, everything sealed on disk opens with the key it runs with. */
  ghost predicate Inv(w: World) {
    NamesOk(w.disk.dns)
    && (w.session.Some? ==>
          var s := w.session.value;
          Decryptable(w.disk, s.key) && w.disk.keyFile == Some(s.key) && Dns.Good(DnsState(w, 0), s.key))
  }

  lemma LaunchKeeps(w: World, e: Event, nonce: nat)
    requires Inv(w) && e.Launch? && w.session.None?
    ensures Inv(Step(w, e, nonce))
  {}

  lemma DnsCallKeeps(w: World, e: Event, nonce: nat)
    requires Inv(w) && e.DnsCall? && EventOk(e) && w.session.Some?
    ensures Inv(Step(w, e, nonce))
  {
    hide Dns.Step;
    var s := DnsState(w, nonce);
    var k := w.session.value.key;
    NonceIsNoMatter(DnsState(w, 0), s, k);
    Dns.StepRefines(s, k, e.call.op, e.call.copyOk, e.call.writeOk);
    var t := Dns.Step(s, k, e.call.op, e.call.copyOk, e.call.writeOk);
    NonceIsNoMatter(t, t.(nonce := 0), k);
    GoodNames(t, k);
  }

  lemma NonceIsNoMatter(s: Dns.State, t: Dns.State, k: Key)
    requires t == s.(nonce := t.nonce)
    ensures Dns.Good(s, k) == Dns.Good(t, k)
  {}

  lemma GoodNames(s: Dns.State, k: Key)
    requires Dns.Good(s, k)
    ensures NamesOk(s.file) && Dns.Read(s.file, k).Success?
  {}

  lemma SaveKeeps(w: World, e: Event, nonce: nat)
    requires Inv(w) && !e.DnsCall? && !e.Launch?
    ensures Inv(Step(w, e, nonce))
  {}

  /** Over every life of the data directory - any number of starts, with the key file kept, lost or
      replaced in between, and any saves while running - a running manager can read all its DNS keys, PFX
      passwords and account keys, and its key is the one on disk. */
  lemma RunningMeansReadable(w: World, es: seq<Event>)
    requires w.session.None? && NamesOk(w.disk.dns)
    requires forall e :: e in es ==> EventOk(e)
    ensures Inv(Run(w, es))
    ensures var w' := Run(w, es);
            w'.session.Some? ==> Decryptable(w'.disk, w'.session.value.key)
                                 && w'.disk.keyFile == Some(w'.session.value.key)
  {
    RunKeepsInv(w, es);
  }

  lemma StepKeeps(w: World, e: Event, nonce: nat)
    requires Inv(w) && EventOk(e)
    ensures Inv(Step(w, e, nonce))
  {
    hide Inv;
    if e.DnsCall? {
      if w.session.Some? { DnsCallKeeps(w, e, nonce); }
    } else if e.Launch? {
      if w.session.None? { LaunchKeeps(w, e, nonce); }
    } else {
      SaveKeeps(w, e, nonce);
    }
  }

  /** With its key file kept, a manager that ran can be started again, and with the same key. */
  lemma RestartWithKeptKey(w: World, es: seq<Event>, random: Key)
    requires w.session.None? && NamesOk(w.disk.dns)
    requires forall e :: e in es ==> EventOk(e)
    requires Run(w, es).session.Some?
    ensures Start(Run(w, es).disk, random, 0).1 == Some(Run(w, es).session.value.key)
  {
    hide Run;
    RunningMeansReadable(w, es);
    StartSucceedsExactly(Run(w, es).disk, random, 0);
  }

  // ---------------------------------------------------------------- losing the key

  /** Something on disk is sealed under the key. */
  predicate SealedUnder(d: Disk, k: Key) {
    (d.dns.V2? && d.dns.ct.Sealed? && d.dns.ct.key == k)
    || (exists b :: b in d.metas && d.metas[b].Enc? && d.metas[b].c.Sealed? && d.metas[b].c.key == k)
    || exists a :: a in d.accounts && a.accountKey.Ct? && a.accountKey.c.Sealed? && a.accountKey.c.key == k
  }

  lemma OnlyItsKeyOpens(d: Disk, k: Key)
    requires SealedUnder(d, k)
    ensures NeedsKey(d) && forall k' :: k' != k ==> !Decryptable(d, k')
  {}

  /** Events while the manager is down and the right key is not there. */
  predicate Outage(e: Event, k: Key) { e.Launch? || e.Stop? || (e.SetKeyFile? && e.found != Some(k)) }

  /** Whatever is tried while the key is lost or replaced - every start is refused, and no file but the key
      file changes. */
  lemma {:induction false} OutageChangesNothing(w: World, es: seq<Event>, k: Key)
    requires w.session.None? && SealedUnder(w.disk, k) && w.disk.keyFile != Some(k)
    requires forall e :: e in es ==> Outage(e, k)
    ensures var w' := Run(w, es);
            w'.session.None? && w'.disk.keyFile != Some(k) && w'.disk == w.disk.(keyFile := w'.disk.keyFile)
  {
    hide SealedUnder, Decryptable, NeedsKey;
    if es != [] {
      var e := es[|es| - 1];
      assert e in es;
      OutageChangesNothing(w, es[..|es| - 1], k);
      var before := Run(w, es[..|es| - 1]);
      SameSeals(w.disk, before.disk, k);
      OnlyItsKeyOpens(before.disk, k);
    }
  }

  lemma SameSeals(d: Disk, d': Disk, k: Key)
    requires SealedUnder(d, k) && d' == d.(keyFile := d'.keyFile)
    ensures SealedUnder(d', k)
  {}

  lemma KeyFileIsNoMatter(d: Disk, d': Disk, k: Key)
    requires d' == d.(keyFile := d'.keyFile)
    ensures Decryptable(d, k) == Decryptable(d', k)
  {}

  /** And as soon as the right key is back, the manager starts and can read all that was there. */
  lemma KeyRestored(w: World, es: seq<Event>, k: Key, random: Key, nonce: nat)
    requires w.session.None? && SealedUnder(w.disk, k) && Decryptable(w.disk, k) && w.disk.keyFile != Some(k)
    requires forall e :: e in es ==> Outage(e, k)
    ensures var (d, key) := Start(Run(w, es).disk.(keyFile := Some(k)), random, nonce);
            key == Some(k) && d.dns == w.disk.dns && d.metas == w.disk.metas
            && d.accounts == Migrated(w.disk.accounts, k, nonce)
  {
    hide Run, Decryptable, SealedUnder, Migrated;
    OutageChangesNothing(w, es, k);
    var d0 := Run(w, es).disk.(keyFile := Some(k));
    KeyFileIsNoMatter(w.disk, d0, k);
    StartSucceedsExactly(d0, random, nonce);
  }

  // ---------------------------------------------------------------- EAB keys

  predicate EabSealed(accounts: seq<Account>) { exists a :: a in accounts && a.eabKey.Ct? }

  /** With everything readable under its key, a directory is started under another one exactly if no DNS
      key, PFX password or account key is sealed (and, where a new key would be made, no bundle has the
      entry of a sealed password at all). */
  lemma OtherKeyStartsExactly(d: Disk, k: Key, random: Key, nonce: nat)
    requires Decryptable(d, k) && d.keyFile != Some(k) && (d.keyFile.None? ==> random != k)
    ensures Start(d, random, nonce).1.Some? <==>
              !SealedUnder(d, k)
              && (d.keyFile.None? ==> forall b :: b in d.metas ==> d.metas[b] == Missing)
    ensures Start(d, random, nonce).1.Some? ==> Start(d, random, nonce).1 != Some(k)
  {
    StartSucceedsExactly(d, random, nonce);
    if SealedUnder(d, k) {
      OnlyItsKeyOpens(d, k);
    } else {
      NothingUnder(d, k);
    }
  }

  lemma NothingUnder(d: Disk, k: Key)
    requires Decryptable(d, k) && !SealedUnder(d, k)
    ensures forall k' :: Decryptable(d, k') && !d.dns.Garbage?
    ensures NeedsKey(d) <==> exists b :: b in d.metas && d.metas[b] != Missing
    ensures forall a :: a in d.accounts ==> !a.accountKey.Ct?
  {
    hide Dns.Read;
    NothingUnderDns(d.dns, k);
  }

  lemma NothingUnderDns(f: Dns.KeyFile, k: Key)
    requires Dns.Read(f, k).Success? && !(f.V2? && f.ct.Sealed? && f.ct.key == k)
    ensures !f.Garbage? && !DnsLooksSealed(f) && forall k' :: Dns.Read(f, k').Success?
  {}

  /** The checks at a start do not look at EAB keys.  Exactly: a start under another key than the one
      everything was readable with loses accounts if and only if an EAB key is sealed.  The accounts are then
      unreadable, or, where the migration sealed them once more, hold ciphertext for an EAB key. */
  lemma EabKeysLostExactly(d: Disk, k: Key, random: Key, nonce: nat)
    requires Decryptable(d, k) && OpenAll(d.accounts, k).Some?
    requires d.keyFile != Some(k) && (d.keyFile.None? ==> random != k)
    requires Start(d, random, nonce).1.Some?
    ensures var (d', key) := Start(d, random, nonce);
            (OpenAll(d'.accounts, key.value) != OpenAll(d.accounts, k) <==> EabSealed(d.accounts))
            && (OpenAll(d'.accounts, key.value).None? <==> EabSealed(d.accounts) && !HasPlainKey(d.accounts))
  {
    hide Decryptable, SealedUnder, NeedsKey, OpenAll;
    var (d', key) := Start(d, random, nonce);
    OtherKeyStartsExactly(d, k, random, nonce);
    NothingUnder(d, k);
    OpenedAlike(d.accounts, k, key.value);
    if HasPlainKey(d.accounts) {
      AccountsRoundTrip(d.accounts, key.value, nonce);
    }
  }

  lemma OpenedAlike(accounts: seq<Account>, k: Key, k': Key)
    requires OpenAll(accounts, k).Some? && k' != k && forall a :: a in accounts ==> !a.accountKey.Ct?
    ensures OpenAll(accounts, k').None? <==> EabSealed(accounts)
    ensures OpenAll(accounts, k) == Some(accounts) <==> !EabSealed(accounts)
    ensures !EabSealed(accounts) ==> OpenAll(accounts, k') == Some(accounts)
  {
    assert forall i :: 0 <= i < |accounts| ==> accounts[i] in accounts;
    forall i | 0 <= i < |accounts|
      ensures OpenAccount(accounts[i], k') == if accounts[i].eabKey.Ct? then None else Some(accounts[i])
      ensures OpenAccount(accounts[i], k) == Some(accounts[i]) <==> !accounts[i].eabKey.Ct?
    {
      assert OpenAccount(accounts[i], k).Some?;
      OpenedDiffers(accounts[i], k);
    }
    if EabSealed(accounts) {
      var a :| a in accounts && a.eabKey.Ct?;
      var i :| 0 <= i < |accounts| && accounts[i] == a;
      assert OpenAccount(accounts[i], k').None?;
      assert OpenAll(accounts, k).value[i] != accounts[i];
    } else {
      assert OpenAll(accounts, k).value == accounts;
      assert OpenAll(accounts, k').value == accounts;
    }
  }

  /** The checks look at account keys but not at EAB keys: a host whose only secret is an EAB key gets a
      new storage key without a word, and can no longer read it. */
  lemma EabKeyIsNotGuarded(lost: Key, random: Key, text: Text)
    requires lost != random
    ensures var d := Disk(None, Dns.Absent, [], map[],
                          [Account(Blank, Ct(Encrypt(lost, AcmeAtRest, 0, text)))]);
            Start(d, random, 0).1 == Some(random) && OpenAll(Start(d, random, 0).0.accounts, random).None?
            && OpenAll(d.accounts, lost).Some?
  {}

  predicate AllBlank(accounts: seq<Account>) {
    forall a :: a in accounts ==> a.accountKey.Blank? && a.eabKey.Blank?
  }

  lemma {:induction false} SealedStays(w: World, es: seq<Event>, accounts: seq<Account>, k: Key, n: nat)
    requires w.disk.accounts == SealAll(accounts, k, n) && forall e :: e in es ==> !e.PutAccounts?
    ensures Run(w, es).disk.accounts == w.disk.accounts
  {
    hide SealAll, Decryptable, NeedsKey;
    if es != [] {
      assert es[|es| - 1] in es;
      SealedStays(w, es[..|es| - 1], accounts, k, n);
      NothingPlain(accounts, k, n);
    }
  }

  lemma NothingPlain(accounts: seq<Account>, k: Key, n: nat)
    ensures !HasPlainKey(SealAll(accounts, k, n))
  {}

  /** EAB keys over a life.  Save accounts while the manager runs; let anything happen after that but saving
      accounts again, the key file lost or replaced included.  A manager then running reads the accounts, as
      they were saved, exactly if it runs with the key of the save (or there was nothing to seal); and it can
      only run with another one if no account key was saved. */
  lemma EabKeysOverALife(w: World, accounts: seq<Account>, nonce: nat, es: seq<Event>)
    requires Inv(w) && w.session.Some?
    requires forall e :: e in es ==> EventOk(e) && !e.PutAccounts?
    ensures var v := Run(Step(w, PutAccounts(accounts), nonce), es);
            v.session.Some? ==>
              (OpenAll(v.disk.accounts, v.session.value.key).Some? <==>
                 v.session.value.key == w.session.value.key || AllBlank(accounts))
              && (OpenAll(v.disk.accounts, v.session.value.key).Some? ==>
                    OpenAll(v.disk.accounts, v.session.value.key) == Some(accounts))
              && (v.session.value.key != w.session.value.key ==>
                    forall a :: a in accounts ==> a.accountKey.Blank?)
  {
    hide Run, Inv, Decryptable, OpenAll, SealAll, EventOk;
    var k := w.session.value.key;
    var w0 := Step(w, PutAccounts(accounts), nonce);
    PutIsOk(accounts);
    StepKeeps(w, PutAccounts(accounts), nonce);
    SealedStays(w0, es, accounts, k, nonce);
    RunKeepsInv(w0, es);
    var v := Run(w0, es);
    if v.session.Some? {
      InvReads(v);
      ReadWith(accounts, k, v.session.value.key, nonce);
      OpensAccountKeys(v.disk, v.session.value.key);
    }
  }

  lemma PutIsOk(accounts: seq<Account>)
    ensures EventOk(PutAccounts(accounts))
  {}

  lemma InvReads(w: World)
    requires Inv(w) && w.session.Some?
    ensures Decryptable(w.disk, w.session.value.key)
  {}

  lemma OpensAccountKeys(d: Disk, k: Key)
    requires Decryptable(d, k)
    ensures forall a :: a in d.accounts ==> TextOpens(a.accountKey, k)
  {}

  lemma ReadWith(accounts: seq<Account>, k: Key, k': Key, nonce: nat)
    ensures var sealed := SealAll(accounts, k, nonce);
            (OpenAll(sealed, k').Some? <==> k' == k || AllBlank(accounts))
            && (OpenAll(sealed, k').Some? ==> OpenAll(sealed, k') == Some(accounts))
            && (k' != k && (forall a :: a in sealed ==> TextOpens(a.accountKey, k')) ==>
                  forall a :: a in accounts ==> a.accountKey.Blank?)
  {
    var sealed := SealAll(accounts, k, nonce);
    AccountsRoundTrip(accounts, k, nonce);
    if k' != k {
      hide OpenAccount, SealAccount, TextOpens;
      forall i | 0 <= i < |accounts|
        ensures sealed[i] in sealed && accounts[i] in accounts
        ensures OpenAccount(sealed[i], k')
                == if accounts[i].accountKey.Blank? && accounts[i].eabKey.Blank? then Some(accounts[i]) else None
        ensures TextOpens(sealed[i].accountKey, k') <==> accounts[i].accountKey.Blank?
      {
        ReadOneWith(accounts[i], k, k', nonce);
      }
      if AllBlank(accounts) { assert OpenAll(sealed, k').value == accounts; }
    }
  }

  lemma ReadOneWith(a: Account, k: Key, k': Key, nonce: nat)
    requires k' != k
    ensures var sealed := SealAccount(a, k, nonce);
            OpenAccount(sealed, k') == (if a.accountKey.Blank? && a.eabKey.Blank? then Some(a) else None)
            && (TextOpens(sealed.accountKey, k') <==> a.accountKey.Blank?)
  {}

  lemma {:induction false} RunKeepsInv(w: World, es: seq<Event>)
    requires Inv(w) && forall e :: e in es ==> EventOk(e)
    ensures Inv(Run(w, es))
  {
    hide Inv, Step, EventOk;
    if es != [] {
      assert es[|es| - 1] in es;
      RunKeepsInv(w, es[..|es| - 1]);
      StepKeeps(Run(w, es[..|es| - 1]), es[|es| - 1], |es|);
    }
  }

  // ---------------------------------------------------------------- starting and running

  /** The first start of a directory: with nothing sealed in it, the manager runs under the new key, and the
      key file holds that key. */
  lemma FirstStart(w: World, random: Key, nonce: nat)
    requires w.session.None? && w.disk.keyFile.None?
    requires w.disk.dns.Absent? || (w.disk.dns.V1? && "__ddnskey_enc" !in w.disk.dns.keys)
    requires forall b :: b in w.disk.metas ==> w.disk.metas[b].Missing?
    requires forall a :: a in w.disk.accounts ==> a.accountKey.Blank? || a.accountKey.Pem?
    ensures var v := Step(w, Launch(random), nonce);
            v.session == Some(Session(random, None)) && v.disk.keyFile == Some(random)
            && v.disk.dns == w.disk.dns && v.disk.metas == w.disk.metas
  {}

  /** Stopping and starting again brings back a manager with the same key, without a cache. */
  lemma StopAndLaunch(w: World, es: seq<Event>, random: Key, nonce: nat)
    requires w.session.None? && NamesOk(w.disk.dns)
    requires forall e :: e in es ==> EventOk(e)
    requires Run(w, es).session.Some?
    ensures var v := Run(w, es);
            var v' := Step(Step(v, Stop, nonce), Launch(random), nonce);
            v'.session == Some(Session(v.session.value.key, None))
            && v'.disk.keyFile == v.disk.keyFile && v'.disk.dns == v.disk.dns && v'.disk.metas == v.disk.metas
  {
    hide Run, Decryptable, Migrated;
    RunningMeansReadable(w, es);
  }

  /** The DNS keys of a running manager are one map, and each call acts on it. */
  lemma CallsAct(w: World, c: Dns.Call, nonce: nat)
    requires Inv(w) && w.session.Some? && (c.op.SaveKey? ==> c.op.name != "__ddnskey_enc")
    ensures var v := Step(w, DnsCall(c), nonce);
            v.session.Some? && v.session.value.key == w.session.value.key
            && Dns.Meaning(DnsState(v, nonce), v.session.value.key)
               == Dns.Apply(Dns.Meaning(DnsState(w, nonce), w.session.value.key), c.op)
  {
    hide Dns.Step, Dns.Apply;
    var s := DnsState(w, nonce);
    var k := w.session.value.key;
    NonceIsNoMatter(DnsState(w, 0), s, k);
    Dns.StepRefines(s, k, c.op, c.copyOk, c.writeOk);
    MeaningIgnoresNonce(Dns.Step(s, k, c.op, c.copyOk, c.writeOk), nonce, k);
  }

  lemma MeaningIgnoresNonce(s: Dns.State, nonce: nat, k: Key)
    ensures Dns.Meaning(Dns.State(s.file, s.backups, s.cache, nonce), k) == Dns.Meaning(s, k)
  {}

  // ---------------------------------------------------------------- PFX passwords over a life

  predicate Touches(e: Event, b: string) { (e.SaveMeta? || e.DropMeta?) && e.bundle == b }

  lemma {:induction false} MetaStays(w: World, es: seq<Event>, b: string)
    requires b in w.disk.metas && forall e :: e in es ==> !Touches(e, b)
    ensures b in Run(w, es).disk.metas && Run(w, es).disk.metas[b] == w.disk.metas[b]
  {
    hide Decryptable, NeedsKey;
    if es != [] {
      assert es[|es| - 1] in es;
      MetaStays(w, es[..|es| - 1], b);
    }
  }

  /** A PFX password saved while the manager runs is read back by whatever manager runs later, however often it was
      started in between and whatever happened to the key file, until the metadata of the bundle is saved again
      or dropped. */
  lemma PasswordOverALife(w: World, b: string, password: string, nonce: nat, es: seq<Event>)
    requires Inv(w) && w.session.Some?
    requires forall e :: e in es ==> EventOk(e) && !Touches(e, b)
    ensures var v := Run(Step(w, SaveMeta(b, Some(password)), nonce), es);
            b in v.disk.metas && v.disk.metas[b].Enc?
            && (v.session.Some? ==>
                  v.session.value.key == w.session.value.key
                  && Decrypt(v.session.value.key, PfxPasswordAtRest, v.disk.metas[b].c) == Some(password))
  {
    hide Run, Inv, Decryptable, EventOk;
    var e0 := SaveMeta(b, Some(password));
    var w0 := Step(w, e0, nonce);
    MetaIsOk(b, password);
    StepKeeps(w, e0, nonce);
    RunKeepsInv(w0, es);
    MetaStays(w0, es, b);
    var v := Run(w0, es);
    if v.session.Some? {
      InvReads(v);
      OpensPasswords(v.disk, v.session.value.key, b);
    }
  }

  lemma MetaIsOk(b: string, password: string)
    ensures EventOk(SaveMeta(b, Some(password)))
  {}

  lemma OpensPasswords(d: Disk, k: Key, b: string)
    requires Decryptable(d, k) && b in d.metas
    ensures PfxOpens(d.metas[b], k)
  {}

  /** Dropping the metadata of a bundle takes its entry away and no other; and a manager that is down changes
      nothing. */
  lemma DropAndRest(w: World, e: Event, nonce: nat)
    ensures w.session.Some? && e.DropMeta? ==>
              Step(w, e, nonce) == w.(disk := w.disk.(metas := w.disk.metas - {e.bundle}))
    ensures w.session.None? && !e.Launch? ==>
              Step(w, e, nonce) == w.(disk := w.disk.(keyFile := if e.SetKeyFile? then e.found else w.disk.keyFile))
  {
    hide Dns.Step;
  }

  // ---------------------------------------------------------------- a start in plain terms

  /** Without a key file a start is refused exactly if the DNS file is sealed or no JSON, a bundle has the
      entry of a sealed password, or an account key is anything but blank or PEM. */
  lemma KeylessStartExactly(d: Disk, random: Key, nonce: nat)
    requires d.keyFile.None?
    ensures Start(d, random, nonce).1 ==
              if d.dns.Garbage? || d.dns.V2? || (d.dns.V1? && "__ddnskey_enc" in d.dns.keys)
                 || (exists b :: b in d.metas && !d.metas[b].Missing?)
                 || (exists a :: a in d.accounts && (a.accountKey.Ct? || a.accountKey.Bare?))
              then None else Some(random)
  {
    StartSucceedsExactly(d, random, nonce);
  }

  /** A message sealed under the key for the purpose. */
  predicate SealedWith<T>(c: Cipher<T>, k: Key, p: Purpose) { c.Sealed? && c.key == k && c.purpose == p }

  /** With a key file the start succeeds exactly if that key opens everything checked: sealed DNS keys, every
      sealed PFX password, and every account key that is neither blank nor PEM. */
  lemma StartWithKeyExactly(d: Disk, k: Key, random: Key, nonce: nat)
    requires d.keyFile == Some(k)
    ensures Start(d, random, nonce).1 ==
              if !d.dns.Garbage? && (d.dns.V1? ==> "__ddnskey_enc" !in d.dns.keys)
                 && (d.dns.V2? ==> SealedWith(d.dns.ct, k, DnsKeysAtRest))
                 && (forall b :: b in d.metas && d.metas[b].Enc? ==> SealedWith(d.metas[b].c, k, PfxPasswordAtRest))
                 && (forall a :: a in d.accounts ==>
                       !a.accountKey.Bare? && (a.accountKey.Ct? ==> SealedWith(a.accountKey.c, k, AcmeAtRest)))
              then Some(k) else None
  {
    StartSucceedsExactly(d, random, nonce);
  }

  /** Afterwards the accounts are the same, unless an account key stood there in PEM: then every text that is
      not blank is sealed under the key, and opens to what stood there. */
  lemma StartSealsExactly(d: Disk, random: Key, nonce: nat, i: nat)
    requires Start(d, random, nonce).1.Some? && i < |d.accounts|
    ensures var (d', k) := Start(d, random, nonce);
            |d'.accounts| == |d.accounts|
            && if exists a :: a in d.accounts && a.accountKey.Pem?
               then IsSealing(d.accounts[i].accountKey, d'.accounts[i].accountKey, k.value)
                    && IsSealing(d.accounts[i].eabKey, d'.accounts[i].eabKey, k.value)
               else d'.accounts == d.accounts
  {
    hide Decryptable, NeedsKey;
  }

  predicate IsSealing(plain: Text, sealed: Text, k: Key) {
    if plain.Blank? then sealed.Blank?
    else sealed.Ct? && SealedWith(sealed.c, k, AcmeAtRest) && sealed.c.plain == plain
  }
}
