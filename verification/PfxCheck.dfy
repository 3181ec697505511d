/** Do the PFX containers of a bundle hold the certificate of its PEM files?  And if not, the rebuild. */
module PfxCheck {

  import opened Prelude
  import opened Crypto
  import opened Bundles
  import opened BundleStore

  datatype Verdict = Consistent | NeedsRebuild | Unverifiable

  // ---------------------------------------------------------------- passwords to try

  function Add(out: seq<string>, pw: string): seq<string> { if pw == "" || pw in out then out else out + [pw] }

  /** candidatePFXPasswords: bundle, plain, resolved, default; a password that does not resolve is an error. */
  function Candidates(password: string, m: Meta, key: Key): (r: Option<seq<string>>)
    ensures r.None? <==> Resolve(m, key).None?
    ensures r.Some? ==> forall pw :: pw in r.value <==>
                          pw != "" && (pw == password || pw == TextAt(m, "pfx_password")
                                       || Some(pw) == Resolve(m, key) || pw == DEFAULT_PASSWORD)
  {
    var resolved := Resolve(m, key);
    if resolved.None? then None
    else Some(Add(Add(Add(Add([], password), TextAt(m, "pfx_password")), resolved.value), DEFAULT_PASSWORD))
  }

  lemma FirstCandidate(password: string, m: Meta, key: Key)
    requires Resolve(m, key).Some?
    ensures var c := Candidates(password, m, key).value;
            c != [] && c[0] == if password != "" then password
                               else if TextAt(m, "pfx_password") != "" then TextAt(m, "pfx_password")
                               else if Resolve(m, key).value != "" then Resolve(m, key).value
                               else DEFAULT_PASSWORD
  {}

  /** The certificates seen with the first candidate that opens the container. */
  function Decode(f: File, pws: seq<string>): (r: Option<seq<nat>>)
    ensures r.Some? <==> exists i :: 0 <= i < |pws| && OpenPfx(f, pws[i]).Some?
    ensures r.Some? ==> exists i :: 0 <= i < |pws| && OpenPfx(f, pws[i]) == r
  {
    if pws == [] then None
    else if Decode(f, pws[..|pws| - 1]).Some? then Decode(f, pws[..|pws| - 1])
    else
      assert forall i :: 0 <= i < |pws| - 1 ==> pws[..|pws| - 1][i] == pws[i];
      OpenPfx(f, pws[|pws| - 1])
  }

  /** decodePFXWithCandidates */
  method DecodeWithCandidates(f: File, pws: seq<string>) returns (certs: Option<seq<nat>>, used: nat)
    ensures certs == Decode(f, pws)
    ensures certs.Some? ==> 0 < used <= |pws| && OpenPfx(f, pws[used - 1]) == certs
                            && forall i :: 0 <= i < used - 1 ==> OpenPfx(f, pws[i]).None?
  {
    var i := 0;
    while i < |pws|
      invariant 0 <= i <= |pws|
      invariant forall j :: 0 <= j < i ==> OpenPfx(f, pws[j]).None?
    {
      certs := OpenPfx(f, pws[i]);
      if certs.Some? {
        OpensAlike(f, pws);
        return certs, i + 1;
      }
      i := i + 1;
    }
    certs, used := None, |pws|;
  }

  /** A container has one password, so every candidate that opens it shows the same certificates. */
  lemma OpensAlike(f: File, pws: seq<string>)
    ensures forall i :: 0 <= i < |pws| && OpenPfx(f, pws[i]).Some? ==> Decode(f, pws) == OpenPfx(f, pws[i])
  {}

  // ---------------------------------------------------------------- the check

  function FileOf(files: Files, name: string): File { if name in files then files[name] else [] }

  /** The certificate the bundle stands for. */
  function Authoritative(files: Files): Option<nat> {
    var p1 := LeafOf(FileOf(files, "fullchain.pem"));
    if p1.Some? then p1 else LeafOf(FileOf(files, "cert.pem"))
  }

  predicate LeavesDiffer(files: Files) {
    var p1 := LeafOf(FileOf(files, "fullchain.pem"));
    var p2 := LeafOf(FileOf(files, "cert.pem"));
    p1.Some? && p2.Some? && p1 != p2
  }

  function CheckContainer(f: File, leaf: nat, pws: seq<string>): Verdict {
    match Decode(f, pws)
    case None => Unverifiable
    case Some(certs) => if certs[0] != leaf then NeedsRebuild else Consistent
  }

  /** checkBundlePFXConsistency, branch by branch. */
  function Check(files: Files, password: string, m: Meta, key: Key): Verdict {
    if files == map[] then Unverifiable
    else if (FileOf(files, "fullchain.pem") == [] && FileOf(files, "cert.pem") == [])
            || FileOf(files, "privkey.pem") == [] then Unverifiable
    else if FileOf(files, "cert.pfx") == [] || FileOf(files, "cert-modern.pfx") == [] then NeedsRebuild
    else if Authoritative(files).None? then Unverifiable
    else if LeavesDiffer(files) then NeedsRebuild
    else
      var leaf := Authoritative(files).value;
      match Candidates(password, m, key)
      case None => Unverifiable
      case Some(pws) =>
        var v := CheckContainer(FileOf(files, "cert.pfx"), leaf, pws);
        if v != Consistent then v else CheckContainer(FileOf(files, "cert-modern.pfx"), leaf, pws)
  }

  /** What the verdict "consistent" guarantees, and all it takes. */
  ghost predicate ContainerHolds(f: File, leaf: nat, pws: seq<string>) {
    exists pw :: pw in pws && OpenPfx(f, pw).Some? && OpenPfx(f, pw).value[0] == leaf
  }

  lemma CheckContainerExactly(f: File, leaf: nat, pws: seq<string>)
    ensures CheckContainer(f, leaf, pws) == Consistent <==> ContainerHolds(f, leaf, pws)
  {}

  lemma ConsistentExactly(files: Files, password: string, m: Meta, key: Key)
    ensures Check(files, password, m, key) == Consistent <==>
              FileOf(files, "privkey.pem") != [] && Authoritative(files).Some? && !LeavesDiffer(files)
              && Candidates(password, m, key).Some?
              && ContainerHolds(FileOf(files, "cert.pfx"), Authoritative(files).value,
                                Candidates(password, m, key).value)
              && ContainerHolds(FileOf(files, "cert-modern.pfx"), Authoritative(files).value,
                                Candidates(password, m, key).value)
  {
    hide Candidates, CheckContainer, OpenPfx;
    if Candidates(password, m, key).Some? && Authoritative(files).Some? {
      var pws := Candidates(password, m, key).value;
      CheckContainerExactly(FileOf(files, "cert.pfx"), Authoritative(files).value, pws);
      CheckContainerExactly(FileOf(files, "cert-modern.pfx"), Authoritative(files).value, pws);
    }
    EmptyHoldsNothing(files, Candidates(password, m, key));
    assert files == map[] ==> FileOf(files, "privkey.pem") == [];
  }

  ghost predicate ContainerDiffers(f: File, leaf: nat, pws: seq<string>) {
    exists pw :: pw in pws && OpenPfx(f, pw).Some? && OpenPfx(f, pw).value[0] != leaf
  }

  lemma CheckContainerDiffers(f: File, leaf: nat, pws: seq<string>)
    ensures CheckContainer(f, leaf, pws) == NeedsRebuild <==> ContainerDiffers(f, leaf, pws)
  {
    OpensAlike(f, pws);
    if Decode(f, pws).Some? {
      var i :| 0 <= i < |pws| && OpenPfx(f, pws[i]) == Decode(f, pws);
      assert pws[i] in pws;
    }
  }

  /** And what calls for a rebuild: a missing container, PEM files that disagree, or a container that opens
      with another leaf - but not one that does not open. */
  lemma NeedsRebuildExactly(files: Files, password: string, m: Meta, key: Key)
    ensures Check(files, password, m, key) == NeedsRebuild <==>
              FileOf(files, "privkey.pem") != []
              && (FileOf(files, "fullchain.pem") != [] || FileOf(files, "cert.pem") != [])
              && (FileOf(files, "cert.pfx") == [] || FileOf(files, "cert-modern.pfx") == []
                  || (Authoritative(files).Some?
                      && (LeavesDiffer(files)
                          || (Candidates(password, m, key).Some?
                              && var leaf, pws := Authoritative(files).value, Candidates(password, m, key).value;
                                 ContainerDiffers(FileOf(files, "cert.pfx"), leaf, pws)
                                 || (ContainerHolds(FileOf(files, "cert.pfx"), leaf, pws)
                                     && ContainerDiffers(FileOf(files, "cert-modern.pfx"), leaf, pws))))))
  {
    hide Candidates, CheckContainer, OpenPfx, ContainerHolds, ContainerDiffers;
    if Candidates(password, m, key).Some? && Authoritative(files).Some? {
      var leaf, pws := Authoritative(files).value, Candidates(password, m, key).value;
      CheckContainerExactly(FileOf(files, "cert.pfx"), leaf, pws);
      CheckContainerDiffers(FileOf(files, "cert.pfx"), leaf, pws);
      CheckContainerDiffers(FileOf(files, "cert-modern.pfx"), leaf, pws);
    }
    assert files == map[] ==> FileOf(files, "privkey.pem") == [];
  }

  lemma EmptyHoldsNothing(files: Files, pws: Option<seq<string>>)
    ensures forall pw :: OpenPfx([], pw).None?
    ensures CertsOf([]) == []
  {}

  // ---------------------------------------------------------------- the rebuild

  /** rebuildBundlePFX up to the save: both containers from fullchain.pem, cert.pem reduced to the leaf. */
  function Rebuilt(b: Bundle, m: Meta, key: Key, salts: Salts): Option<Bundle> {
    var fc := FileOf(b.files, "fullchain.pem");
    var privkey := FileOf(b.files, "privkey.pem");
    var pws := Candidates(b.password, m, key);
    if fc == [] || privkey == [] || pws.None? || pws.value == [] then None
    else
      var pw := pws.value[0];
      var legacy := GeneratePfx(fc, privkey, pw, salts.legacy);
      var modern := GeneratePfx(fc, privkey, pw, salts.modern);
      if legacy.None? || modern.None? then None
      else
        Some(b.(files := b.files["cert.pfx" := legacy.value]["cert-modern.pfx" := modern.value]
                                ["cert.pem" := [CertBlock(CertsOf(fc)[0])]],
                password := if b.password == "" then pw else b.password))
  }

  /** The password a rebuild uses. */
  lemma RebuiltPassword(b: Bundle, m: Meta, key: Key, salts: Salts)
    requires Rebuilt(b, m, key, salts).Some?
    ensures Resolve(m, key).Some?
    ensures var b' := Rebuilt(b, m, key, salts).value;
            b'.password == Candidates(b.password, m, key).value[0] && b'.password != ""
            && b'.name == b.name && b.files.Keys <= b'.files.Keys
    ensures var b' := Rebuilt(b, m, key, salts).value;
            forall n :: n in {"cert.pfx", "cert-modern.pfx"} ==>
              n in b'.files && OpenPfx(b'.files[n], b'.password) == Some(CertsOf(FileOf(b.files, "fullchain.pem")))
  {}

  /** What a rebuild may touch: the two containers and cert.pem, which becomes the first certificate of
      fullchain.pem.  Every other file is there exactly as before. */
  ghost predicate OnlyRebuilt(before: Files, after: Files) {
    (forall n :: n !in {"cert.pfx", "cert-modern.pfx", "cert.pem"} ==>
       (n in after <==> n in before) && (n in before ==> after[n] == before[n]))
    && "cert.pfx" in after && "cert-modern.pfx" in after && "cert.pem" in after
    && "fullchain.pem" in before && CertsOf(before["fullchain.pem"]) != []
    && after["cert.pem"] == [CertBlock(CertsOf(before["fullchain.pem"])[0])]
  }

  /** And the bundle is otherwise the same. */
  lemma RebuildTouchesOnly(b: Bundle, m: Meta, key: Key, salts: Salts)
    requires Rebuilt(b, m, key, salts).Some?
    ensures var b' := Rebuilt(b, m, key, salts).value;
            OnlyRebuilt(b.files, b'.files)
            && b'.name == b.name && b'.targetPath == b.targetPath && b'.expiresAt == b.expiresAt
            && b'.domains == b.domains && (b.password != "" ==> b'.password == b.password)
    ensures var b' := Rebuilt(b, m, key, salts).value;
            b.files.Keys <= b'.files.Keys
            && OpenPfx(b'.files["cert.pfx"], b'.password) == Some(CertsOf(b.files["fullchain.pem"]))
            && OpenPfx(b'.files["cert-modern.pfx"], b'.password) == Some(CertsOf(b.files["fullchain.pem"]))
  {
    hide Candidates, GeneratePfx, OpenPfx;
    RebuiltPassword(b, m, key, salts);
  }

  /** A rebuild is possible exactly with a certificate in fullchain.pem, a key in privkey.pem and a password that
      can be read, whatever the rest of the bundle is like. */
  lemma RebuildPossibleExactly(b: Bundle, m: Meta, key: Key, salts: Salts)
    ensures Rebuilt(b, m, key, salts).Some? <==>
              "fullchain.pem" in b.files && CertsOf(b.files["fullchain.pem"]) != []
              && "privkey.pem" in b.files && StartsWithKey(b.files["privkey.pem"]) && Resolve(m, key).Some?
  {
    hide Candidates, Resolve, OpenPfx;
    if Resolve(m, key).Some? { FirstCandidate(b.password, m, key); }
  }

  /** A password that cannot be read is never replaced by the default: there is no rebuild. */
  lemma NoRebuildWithoutPassword(b: Bundle, m: Meta, key: Key, salts: Salts)
    requires Resolve(m, key).None?
    ensures Rebuilt(b, m, key, salts).None? && Check(b.files, b.password, m, key) != Consistent
  {}

  lemma RebuiltFiles(b: Bundle, m: Meta, key: Key, salts: Salts)
    requires Rebuilt(b, m, key, salts).Some?
    ensures var f := Rebuilt(b, m, key, salts).value.files;
            Authoritative(f) == LeafOf(FileOf(b.files, "fullchain.pem")) && Authoritative(f).Some?
            && !LeavesDiffer(f) && FileOf(f, "privkey.pem") == FileOf(b.files, "privkey.pem") != []
  {}

  /** A rebuilt bundle is consistent for whoever has its password among the candidates. */
  lemma RebuiltIsConsistent(b: Bundle, m: Meta, key: Key, salts: Salts, password: string, m': Meta)
    requires Rebuilt(b, m, key, salts).Some?
    requires Candidates(password, m', key).Some?
    requires Rebuilt(b, m, key, salts).value.password in Candidates(password, m', key).value
    ensures Check(Rebuilt(b, m, key, salts).value.files, password, m', key) == Consistent
  {
    hide Rebuilt, Candidates, Check, OpenPfx, CertsOf;
    var b' := Rebuilt(b, m, key, salts).value;
    RebuiltPassword(b, m, key, salts);
    RebuiltFiles(b, m, key, salts);
    ConsistentExactly(b'.files, password, m', key);
    var leaf := Authoritative(b'.files).value;
    forall n | n in {"cert.pfx", "cert-modern.pfx"}
      ensures ContainerHolds(FileOf(b'.files, n), leaf, Candidates(password, m', key).value)
    {
      assert OpenPfx(b'.files[n], b'.password).Some?;
    }
  }

  /** The whole list of candidates, in order of precedence and without repetition: that of the bundle, the plain
      one, the resolved one, "ddns". */
  lemma CandidatesInOrder(password: string, m: Meta, key: Key)
    requires Resolve(m, key).Some?
    ensures var c := Candidates(password, m, key).value;
            var sources := [password, TextAt(m, "pfx_password"), Resolve(m, key).value, "ddns"];
            InOrder(c, sources)
  {
    hide Resolve, First;
    AddedInOrder([password, TextAt(m, "pfx_password"), Resolve(m, key).value, "ddns"]);
  }

  /** No repetition, and the order of first mention. */
  predicate InOrder(c: seq<string>, sources: seq<string>) {
    (forall i, j :: 0 <= i < j < |c| ==> c[i] != c[j])
    && (forall i, j :: 0 <= i < j < |c| ==> First(sources, c[i]) < First(sources, c[j]))
  }

  lemma AddKeepsOrder(c: seq<string>, sources: seq<string>, n: nat)
    requires n < |sources| && InOrder(c, sources) && forall i :: 0 <= i < |c| ==> First(sources, c[i]) < n
    requires forall i :: 0 <= i < n && sources[i] != "" ==> sources[i] in c
    ensures var c' := Add(c, sources[n]);
            InOrder(c', sources) && (forall i :: 0 <= i < |c'| ==> First(sources, c'[i]) < n + 1)
            && forall i :: 0 <= i < n + 1 && sources[i] != "" ==> sources[i] in c'
  {
    hide First;
    if sources[n] != "" && sources[n] !in c { assert First(sources, sources[n]) == n; }
  }

  lemma AddedInOrder(s: seq<string>)
    requires |s| == 4
    ensures InOrder(Add(Add(Add(Add([], s[0]), s[1]), s[2]), s[3]), s)
  {
    hide InOrder, Add, First;
    assert InOrder([], s) by { NothingInOrder(s); }
    AddKeepsOrder([], s, 0);
    AddKeepsOrder(Add([], s[0]), s, 1);
    AddKeepsOrder(Add(Add([], s[0]), s[1]), s, 2);
    AddKeepsOrder(Add(Add(Add([], s[0]), s[1]), s[2]), s, 3);
  }

  lemma NothingInOrder(s: seq<string>)
    ensures InOrder([], s)
  {}

  /** Where a password first stands in a list. */
  function First(s: seq<string>, pw: string): (i: nat)
    ensures i <= |s| && (forall j :: 0 <= j < i ==> s[j] != pw) && (i < |s| ==> s[i] == pw)
  {
    if s == [] || s[0] == pw then 0 else 1 + First(s[1..], pw)
  }

  /** The certificate a bundle stands for is the first of fullchain.pem, or of cert.pem if that has none. */
  lemma AuthoritativeIs(files: Files)
    ensures Authoritative(files) ==
              if CertsOf(FileOf(files, "fullchain.pem")) != [] then Some(CertsOf(FileOf(files, "fullchain.pem"))[0])
              else if CertsOf(FileOf(files, "cert.pem")) != [] then Some(CertsOf(FileOf(files, "cert.pem"))[0])
              else None
    ensures LeavesDiffer(files) <==>
              CertsOf(FileOf(files, "fullchain.pem")) != [] && CertsOf(FileOf(files, "cert.pem")) != []
              && CertsOf(FileOf(files, "fullchain.pem"))[0] != CertsOf(FileOf(files, "cert.pem"))[0]
  {}
}
