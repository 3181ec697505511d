/** The environment acme.sh is started with: later settings win, each key is set once. */
module AcmeEnv {

  import opened Prelude

  /** The name in an entry NAME=value; an entry without '=' is its own name. */
  function KeyOf(s: string): (k: string)
    ensures '=' !in k
    ensures k == s || (|k| < |s| && s[..|k|] == k && s[|k|] == '=')
  {
    if s == "" || s[0] == '=' then "" else [s[0]] + KeyOf(s[1..])
  }

  lemma {:induction false} KeyOfSetting(name: string, value: string)
    requires '=' !in name
    ensures KeyOf(name + "=" + value) == name
  {
    if name != "" {
      KeyOfSetting(name[1..], value);
      assert (name + "=" + value)[1..] == name[1..] + "=" + value;
    }
  }

  /** The value that counts for a key: its last entry. */
  function Effective(env: seq<string>, key: string): Option<string> {
    if env == [] then None
    else if KeyOf(env[|env| - 1]) == key then Some(env[|env| - 1])
    else Effective(env[..|env| - 1], key)
  }

  predicate LastOfItsKey(env: seq<string>, i: nat)
    requires i < |env|
  {
    forall j :: i < j < |env| ==> KeyOf(env[j]) != KeyOf(env[i])
  }

  /** The entries not overridden by a later one, in order. */
  function Dedup(env: seq<string>): seq<string> {
    if env == [] then []
    else if LastOfItsKey(env, 0) then [env[0]] + Dedup(env[1..])
    else Dedup(env[1..])
  }

  /** The map holds the last position of every key among the first n entries. */
  predicate Noted(env: seq<string>, last: map<string, nat>, n: nat)
    requires n <= |env|
  {
    (forall k :: k in last ==> last[k] < n && KeyOf(env[last[k]]) == k)
    && forall j :: 0 <= j < n ==> KeyOf(env[j]) in last && j <= last[KeyOf(env[j])]
  }

  lemma NotedIsLast(env: seq<string>, last: map<string, nat>, i: nat)
    requires Noted(env, last, |env|) && i < |env|
    ensures KeyOf(env[i]) in last && (last[KeyOf(env[i])] == i <==> LastOfItsKey(env, i))
  {}

  /** dedupEnv: one pass notes the last position of every key, a second one keeps those entries. */
  method DedupEnv(env: seq<string>) returns (out: seq<string>)
    ensures out == Dedup(env)
  {
    hide KeyOf, Dedup, LastOfItsKey;
    var last: map<string, nat> := map[];
    var i := 0;
    while i < |env|
      invariant 0 <= i <= |env|
      invariant Noted(env, last, i)
    {
      last := last[KeyOf(env[i]) := i];
      i := i + 1;
    }
    out, i := [], 0;
    assert env[0..] == env;
    while i < |env|
      invariant 0 <= i <= |env|
      invariant out + Dedup(env[i..]) == Dedup(env)
    {
      SuffixHead(env, i);
      NotedIsLast(env, last, i);
      if last[KeyOf(env[i])] == i {
        out := out + [env[i]];
      }
      i := i + 1;
    }
    assert env[i..] == [] && Dedup([]) == [] by { EmptyDedup(); }
  }

  lemma EmptyDedup()
    ensures Dedup([]) == []
  {}

  lemma SuffixHead(env: seq<string>, i: nat)
    requires i < |env|
    ensures LastOfItsKey(env[i..], 0) == LastOfItsKey(env, i)
    ensures Dedup(env[i..]) == (if LastOfItsKey(env, i) then [env[i]] else []) + Dedup(env[i + 1..])
  {}

  predicate Unique(env: seq<string>) {
    forall i, j :: 0 <= i < j < |env| ==> KeyOf(env[i]) != KeyOf(env[j])
  }

  lemma {:induction false} DedupMembers(env: seq<string>)
    ensures forall e :: e in Dedup(env) <==> exists i :: 0 <= i < |env| && env[i] == e && LastOfItsKey(env, i)
  {
    hide KeyOf;
    if env != [] {
      var rest := env[1..];
      DedupMembers(rest);
      forall e ensures e in Dedup(env) <==> exists i :: 0 <= i < |env| && env[i] == e && LastOfItsKey(env, i) {
        if e in Dedup(rest) {
          var i :| 0 <= i < |rest| && rest[i] == e && LastOfItsKey(rest, i);
          SuffixLast(env, i);
        }
        if i :| 0 < i < |env| && env[i] == e && LastOfItsKey(env, i) {
          SuffixLast(env, i - 1);
          assert rest[i - 1] == e;
        }
      }
    }
  }

  lemma SuffixLast(env: seq<string>, i: nat)
    requires env != [] && i < |env| - 1
    ensures LastOfItsKey(env[1..], i) == LastOfItsKey(env, i + 1)
  {}

  /** No key is set twice. */
  lemma {:induction false} DedupIsUnique(env: seq<string>)
    ensures Unique(Dedup(env))
  {
    hide KeyOf;
    if env != [] {
      var out := Dedup(env[1..]);
      DedupIsUnique(env[1..]);
      DedupMembers(env[1..]);
      forall e | e in out && LastOfItsKey(env, 0) ensures KeyOf(e) != KeyOf(env[0]) {
        var i :| 0 <= i < |env[1..]| && env[1..][i] == e;
        assert env[i + 1] == e;
      }
    }
  }

  lemma {:induction false} EffectiveIsLast(env: seq<string>, key: string)
    ensures match Effective(env, key)
            case None => forall i :: 0 <= i < |env| ==> KeyOf(env[i]) != key
            case Some(e) => exists i :: 0 <= i < |env| && env[i] == e && KeyOf(e) == key && LastOfItsKey(env, i)
  {
    hide KeyOf;
    if env != [] && KeyOf(env[|env| - 1]) != key {
      var init := env[..|env| - 1];
      EffectiveIsLast(init, key);
      if Effective(init, key).Some? {
        var i :| 0 <= i < |init| && init[i] == Effective(init, key).value && LastOfItsKey(init, i);
        forall j | i < j < |env| ensures KeyOf(env[j]) != KeyOf(env[i]) {
          if j < |init| { assert init[j] == env[j]; }
        }
        assert env[i] == init[i] && LastOfItsKey(env, i);
      } else {
        assert forall i :: 0 <= i < |init| ==> KeyOf(init[i]) != key;
        assert forall i :: 0 <= i < |init| ==> init[i] == env[i];
      }
    }
  }

  lemma LastIsOnly(env: seq<string>, i: nat, j: nat)
    requires i < |env| && j < |env| && LastOfItsKey(env, i) && LastOfItsKey(env, j)
    requires KeyOf(env[i]) == KeyOf(env[j])
    ensures i == j
  {}

  lemma LastExists(env: seq<string>, i: nat) returns (j: nat)
    requires i < |env|
    ensures i <= j < |env| && KeyOf(env[j]) == KeyOf(env[i]) && LastOfItsKey(env, j)
    decreases |env| - i
  {
    if LastOfItsKey(env, i) {
      j := i;
    } else {
      var k :| i < k < |env| && KeyOf(env[k]) == KeyOf(env[i]);
      j := LastExists(env, k);
    }
  }

  /** Removing duplicates changes no setting that counts. */
  lemma DedupKeepsEffective(env: seq<string>, key: string)
    ensures Effective(Dedup(env), key) == Effective(env, key)
  {
    hide KeyOf, LastOfItsKey;
    var out := Dedup(env);
    DedupMembers(env);
    EffectiveIsLast(env, key);
    EffectiveIsLast(out, key);
    if Effective(env, key).Some? {
      var e := Effective(env, key).value;
      assert e in out;
      var i :| 0 <= i < |out| && out[i] == e;
      assert Effective(out, key).Some?;
      var e' := Effective(out, key).value;
      assert e' in out;
      var a :| 0 <= a < |env| && env[a] == e && LastOfItsKey(env, a);
      var b :| 0 <= b < |env| && env[b] == e' && LastOfItsKey(env, b);
      LastIsOnly(env, a, b);
    } else {
      forall i | 0 <= i < |out| ensures KeyOf(out[i]) != key {
        assert out[i] in out;
        var a :| 0 <= a < |env| && env[a] == out[i] && LastOfItsKey(env, a);
      }
    }
  }

  // ---------------------------------------------------------------- what acme.sh is given

  /** acmeShEnv before duplicates go: the process environment, HOME if it was blank, the home itself, and
      the credentials. */
  function Assembled(environ: seq<string>, homeIsBlank: bool, parent: string, home: string,
                     creds: seq<(string, string)>): seq<string> {
    environ + (if homeIsBlank then ["HOME=" + parent] else []) + ["LE_WORKING_DIR=" + home] + Settings(creds)
  }

  function Settings(creds: seq<(string, string)>): (r: seq<string>)
    ensures |r| == |creds|
    ensures forall i :: 0 <= i < |r| ==> r[i] == creds[i].0 + "=" + creds[i].1
  {
    if creds == [] then [] else Settings(creds[..|creds| - 1]) + [creds[|creds| - 1].0 + "=" + creds[|creds| - 1].1]
  }

  lemma {:induction false} EffectiveAppend(a: seq<string>, b: seq<string>, key: string)
    ensures Effective(a + b, key) == if Effective(b, key).Some? then Effective(b, key) else Effective(a, key)
  {
    hide KeyOf;
    if b == [] {
      assert a + b == a;
    } else {
      assert (a + b)[..|a + b| - 1] == a + b[..|b| - 1];
      EffectiveAppend(a, b[..|b| - 1], key);
    }
  }

  lemma {:induction false} NoSuchSetting(creds: seq<(string, string)>, key: string)
    requires forall c :: c in creds ==> '=' !in c.0 && c.0 != key
    ensures Effective(Settings(creds), key) == None
  {
    if creds != [] {
      var last := creds[|creds| - 1];
      NoSuchSetting(creds[..|creds| - 1], key);
      assert last in creds;
      KeyOfSetting(last.0, last.1);
      assert Settings(creds)[..|creds| - 1] == Settings(creds[..|creds| - 1]);
    }
  }

  /** Whatever the process environment says, acme.sh works in the chosen home. */
  lemma ChosenHomeIsEffective(environ: seq<string>, homeIsBlank: bool, parent: string, home: string,
                              creds: seq<(string, string)>)
    requires forall c :: c in creds ==> '=' !in c.0 && c.0 != "LE_WORKING_DIR"
    ensures Effective(Dedup(Assembled(environ, homeIsBlank, parent, home, creds)), "LE_WORKING_DIR")
            == Some("LE_WORKING_DIR" + "=" + home)
  {
    var base := environ + (if homeIsBlank then ["HOME=" + parent] else []);
    var mine := ["LE_WORKING_DIR=" + home];
    assert "LE_WORKING_DIR=" + home == "LE_WORKING_DIR" + "=" + home;
    KeyOfSetting("LE_WORKING_DIR", home);
    NoSuchSetting(creds, "LE_WORKING_DIR");
    EffectiveAppend(base, mine, "LE_WORKING_DIR");
    EffectiveAppend(base + mine, Settings(creds), "LE_WORKING_DIR");
    DedupKeepsEffective(Assembled(environ, homeIsBlank, parent, home, creds), "LE_WORKING_DIR");
  }

  /** And with the credentials of the DNS provider: the last one given under a name counts. */
  lemma CredentialsAreEffective(environ: seq<string>, homeIsBlank: bool, parent: string, home: string,
                                creds: seq<(string, string)>, i: nat)
    requires i < |creds| && forall c :: c in creds ==> '=' !in c.0
    requires forall j :: i < j < |creds| ==> creds[j].0 != creds[i].0
    ensures Effective(Dedup(Assembled(environ, homeIsBlank, parent, home, creds)), creds[i].0)
            == Some(creds[i].0 + "=" + creds[i].1)
  {
    var base := environ + (if homeIsBlank then ["HOME=" + parent] else []) + ["LE_WORKING_DIR=" + home];
    LastSetting(creds, i);
    EffectiveAppend(base, Settings(creds), creds[i].0);
    DedupKeepsEffective(Assembled(environ, homeIsBlank, parent, home, creds), creds[i].0);
  }

  lemma {:induction false} LastSetting(creds: seq<(string, string)>, i: nat)
    requires i < |creds| && forall c :: c in creds ==> '=' !in c.0
    requires forall j :: i < j < |creds| ==> creds[j].0 != creds[i].0
    ensures Effective(Settings(creds), creds[i].0) == Some(creds[i].0 + "=" + creds[i].1)
  {
    var n := |creds| - 1;
    assert creds[n] in creds;
    KeyOfSetting(creds[n].0, creds[n].1);
    assert Settings(creds)[..n] == Settings(creds[..n]);
    if i < n {
      LastSetting(creds[..n], i);
      assert creds[n].0 != creds[i].0;
    }
  }

  /** A blank HOME is replaced by the directory above the chosen home, any other stays; and so does every
      setting of the process that is not given anew. */
  lemma OtherSettingsStay(environ: seq<string>, homeIsBlank: bool, parent: string, home: string,
                          creds: seq<(string, string)>, key: string)
    requires forall c :: c in creds ==> '=' !in c.0 && c.0 != key
    requires key != "LE_WORKING_DIR"
    ensures Effective(Dedup(Assembled(environ, homeIsBlank, parent, home, creds)), key)
            == if homeIsBlank && key == "HOME" then Some("HOME=" + parent) else Effective(environ, key)
  {
    var extra := if homeIsBlank then ["HOME=" + parent] else [];
    var mine := ["LE_WORKING_DIR=" + home];
    assert "LE_WORKING_DIR=" + home == "LE_WORKING_DIR" + "=" + home && "HOME=" + parent == "HOME" + "=" + parent;
    KeyOfSetting("LE_WORKING_DIR", home);
    KeyOfSetting("HOME", parent);
    NoSuchSetting(creds, key);
    EffectiveAppend(environ, extra, key);
    EffectiveAppend(environ + extra, mine, key);
    EffectiveAppend(environ + extra + mine, Settings(creds), key);
    DedupKeepsEffective(Assembled(environ, homeIsBlank, parent, home, creds), key);
  }

  /** What is kept stays in order. */
  lemma {:induction false} DedupOfConcat(a: seq<string>, b: seq<string>)
    ensures Dedup(a + b) == Kept(a, b) + Dedup(b)
  {
    if a == [] {
      assert a + b == b;
    } else {
      assert (a + b)[1..] == a[1..] + b;
      DedupOfConcat(a[1..], b);
      LastInBoth(a, b);
    }
  }

  lemma LastInBoth(a: seq<string>, b: seq<string>)
    requires a != []
    ensures LastOfItsKey(a + b, 0) <==> LastBefore(a, b)
  {
    hide KeyOf;
    assert (a + b)[0] == a[0];
    if LastOfItsKey(a + b, 0) {
      forall j | 0 < j < |a| ensures KeyOf(a[j]) != KeyOf(a[0]) { assert (a + b)[j] == a[j]; }
      forall j | 0 <= j < |b| ensures KeyOf(b[j]) != KeyOf(a[0]) { assert (a + b)[|a| + j] == b[j]; }
    }
  }

  /** The first entry of a is set neither later in a nor in b. */
  predicate LastBefore(a: seq<string>, b: seq<string>)
    requires a != []
  {
    (forall j :: 0 < j < |a| ==> KeyOf(a[j]) != KeyOf(a[0])) && forall j :: 0 <= j < |b| ==> KeyOf(b[j]) != KeyOf(a[0])
  }

  /** The entries of a that neither a itself nor b overrides, in their order. */
  function Kept(a: seq<string>, b: seq<string>): seq<string> {
    if a == [] then [] else (if LastBefore(a, b) then [a[0]] else []) + Kept(a[1..], b)
  }
}
