/** Certificate files, PFX containers, and the hash of a bundle's files. */
module Bundles {

  import opened Prelude
  import Names

  /** The units a file is made of.  A container is one unit; salt makes every generated one different. */
  datatype Token =
    | CertBlock(id: nat)
    | KeyBlock(id: nat)
    | Container(password: string, leaf: nat, cas: seq<nat>, salt: nat)
    | Raw(byte: nat)

  type File = seq<Token>

  type Files = map<string, File>

  /** SHA-256 of a byte string, idealised as the string itself. */
  datatype Hash = NoHash | Sha256(of: File)

  // ---------------------------------------------------------------- the hash of a set of files

  function Concat(files: Files, names: seq<string>): File
    requires forall n :: n in names ==> n in files
  {
    if names == [] then [] else Concat(files, names[..|names| - 1]) + files[names[|names| - 1]]
  }

  /** The contents in the order of the names; the names themselves do not count. */
  ghost function HashOf(files: Files): Hash {
    Sha256(Concat(files, Names.Listing(files.Keys)))
  }

  /** computeBundleHash: whatever order the names are met in, the hash is the same. */
  method ComputeBundleHash(files: Files) returns (h: Hash)
    ensures h == HashOf(files)
  {
    var names := Names.SortedNames(files.Keys);
    Names.SortedListingIsUnique(names, Names.Listing(files.Keys), files.Keys);
    var sum: File := [];
    var i := 0;
    while i < |names|
      invariant 0 <= i <= |names| && sum == Concat(files, names[..i])
    {
      assert names[..i + 1][..i] == names[..i];
      sum := sum + files[names[i]];
      i := i + 1;
    }
    assert names[..i] == names;
    h := Sha256(sum);
  }

  /** Equal hashes mean equal concatenated contents, no more: moving a block from the end of one file to
      the start of the next goes unnoticed. */
  lemma HashIgnoresBoundaries(a: string, b: string, x: File, y: File, z: File)
    requires Names.Less(a, b)
    ensures HashOf(map[a := x + y, b := z]) == HashOf(map[a := x, b := y + z])
  {
    var names := [a, b];
    Names.LessTotal(a, b);
    Names.SortedListingIsUnique(names, Names.Listing({a, b}), {a, b});
    TwoFiles(a, b, x + y, z);
    TwoFiles(a, b, x, y + z);
    assert (x + y) + z == x + (y + z);
    assert map[a := x + y, b := z].Keys == {a, b} == map[a := x, b := y + z].Keys;
  }

  lemma TwoFiles(a: string, b: string, x: File, y: File)
    requires a != b
    ensures Concat(map[a := x, b := y], [a, b]) == x + y
  {
    var m := map[a := x, b := y];
    assert [a, b][..1] == [a] && [a][..0] == [];
    assert Concat(m, [a]) == [] + x;
  }

  // ---------------------------------------------------------------- PEM and PFX

  /** The certificates of a PEM file in order; the leaf comes first. */
  function CertsOf(f: File): seq<nat> {
    if f == [] then [] else (if f[0].CertBlock? then [f[0].id] else []) + CertsOf(f[1..])
  }

  /** The first PEM block is a private key. */
  predicate StartsWithKey(f: File) {
    f != [] && (f[0].KeyBlock? || (f[0].Raw? && StartsWithKey(f[1..])))
  }

  function GeneratePfx(cert: File, key: File, password: string, salt: nat): (r: Option<File>)
    ensures r.Some? <==> CertsOf(cert) != [] && StartsWithKey(key)
    ensures r.Some? ==> forall pw :: OpenPfx(r.value, pw) ==
                                     if pw == password then Some(CertsOf(cert)) else None
  {
    var certs := CertsOf(cert);
    if certs == [] || !StartsWithKey(key) then None
    else
      assert [certs[0]] + certs[1..] == certs;
      Some([Container(password, certs[0], certs[1..], salt)])
  }

  /** The certificates of a container, if the password is right. */
  function OpenPfx(f: File, password: string): (r: Option<seq<nat>>)
    ensures r.Some? ==> r.value != []
  {
    if |f| == 1 && f[0].Container? && f[0].password == password then Some([f[0].leaf] + f[0].cas) else None
  }

  function LeafOf(f: File): Option<nat> {
    var certs := CertsOf(f);
    if certs == [] then None else Some(certs[0])
  }

  /** The certificates of two files laid end to end; keys, containers and other bytes are none. */
  lemma {:induction false} CertsOfConcat(a: File, b: File)
    ensures CertsOf(a + b) == CertsOf(a) + CertsOf(b)
  {
    if a == [] {
      assert a + b == b;
    } else {
      assert (a + b)[0] == a[0] && (a + b)[1..] == a[1..] + b;
      CertsOfConcat(a[1..], b);
      var one := if a[0].CertBlock? then [a[0].id] else [];
      assert CertsOf(a + b) == one + CertsOf(a[1..] + b);
      assert (one + CertsOf(a[1..])) + CertsOf(b) == one + (CertsOf(a[1..]) + CertsOf(b));
    }
  }

  lemma CertsOfOne(t: Token)
    ensures CertsOf([t]) == if t.CertBlock? then [t.id] else []
    ensures CertsOf([]) == []
  {
    assert [t][1..] == [];
  }

  /** A key file starts with a key, whatever bytes stand before it. */
  lemma {:induction false} KeyAfterText(before: File, t: Token, after: File)
    requires (forall i :: 0 <= i < |before| ==> before[i].Raw?) && !t.Raw?
    ensures StartsWithKey(before + [t] + after) <==> t.KeyBlock?
    ensures !StartsWithKey(before)
  {
    if before == [] {
      assert before + [t] + after == [t] + after;
    } else {
      assert (before + [t] + after)[1..] == before[1..] + [t] + after;
      KeyAfterText(before[1..], t, after);
    }
  }
}
