/** Version comparison, the choice of the newest binary per platform, and the agent's refusal to move
    backwards. */
module SemVer {

  import opened Prelude

  // ---------------------------------------------------------------- text

  function TrimV(s: string): string {
    if s != "" && s[0] == 'v' then s[1..] else s
  }

  /** The text before the first c, or all of it. */
  function Before(s: string, c: char): (r: string)
    ensures c !in r && r <= s
  {
    if s == "" || s[0] == c then "" else [s[0]] + Before(s[1..], c)
  }

  /** The pieces between the dots; always at least one. */
  function SplitDots(s: string): (r: seq<string>)
    ensures |r| >= 1
  {
    if s == "" then [""]
    else
      var rest := SplitDots(s[1..]);
      if s[0] == '.' then [""] + rest
      else [[s[0]] + rest[0]] + rest[1..]
  }

  const MAX_INT := 0x7fff_ffff_ffff_ffff

  predicate IsDigit(c: char) { '0' <= c <= '9' }

  predicate AllDigits(s: string) { forall i :: 0 <= i < |s| ==> IsDigit(s[i]) }

  function Decimal(s: string): (r: nat)
    requires AllDigits(s)
  {
    if s == "" then 0 else Decimal(s[..|s| - 1]) * 10 + (s[|s| - 1] as int - '0' as int)
  }

  /** strconv.Atoi with its error ignored, on text without a minus sign: 0 for anything that is not a
      number, the largest 64-bit integer for a number that is too large. */
  function Atoi(s: string): nat {
    var digits := if s != "" && s[0] == '+' then s[1..] else s;
    if digits == "" || !AllDigits(digits) then 0
    else if Decimal(digits) > MAX_INT then MAX_INT
    else Decimal(digits)
  }

  // ---------------------------------------------------------------- versions

  datatype Version = Version(major: nat, minor: nat, patch: nat)

  function Part(parts: seq<string>, i: nat): nat {
    if i < |parts| then Atoi(Before(parts[i], '-')) else 0
  }

  function FromParts(parts: seq<string>): Version {
    Version(Part(parts, 0), Part(parts, 1), Part(parts, 2))
  }

  function Parse(s: string): Version {
    FromParts(SplitDots(TrimV(s)))
  }

  function Compare(a: Version, b: Version): int {
    if a.major != b.major then (if a.major < b.major then -1 else 1)
    else if a.minor != b.minor then (if a.minor < b.minor then -1 else 1)
    else if a.patch != b.patch then (if a.patch < b.patch then -1 else 1)
    else 0
  }

  function Cmp(a: string, b: string): int {
    Compare(Parse(a), Parse(b))
  }

  /** The three numbers of a version text without its leading v. */
  method ParseVer(v: string) returns (r: Version)
    ensures r == FromParts(SplitDots(v))
  {
    r := NumbersOf(SplitDots(v));
  }

  /** The parsing loops: every piece is converted, missing ones are zero, the first three count. */
  method NumbersOf(parts: seq<string>) returns (r: Version)
    ensures r == FromParts(parts)
  {
    var nums: seq<nat> := [];
    var i := 0;
    while i < |parts|
      invariant 0 <= i <= |parts| && |nums| == i
      invariant forall j :: 0 <= j < i ==> nums[j] == Part(parts, j)
    {
      nums := nums + [Atoi(Before(parts[i], '-'))];
      i := i + 1;
    }
    while |nums| < 3
      invariant |nums| >= |parts|
      invariant forall j :: 0 <= j < |nums| ==> nums[j] == Part(parts, j)
      decreases 3 - |nums|
    {
      nums := nums + [0];
    }
    r := Version(nums[0], nums[1], nums[2]);
  }

  /** The comparison loop: the first differing number decides. */
  method CompareNumbers(aa: seq<nat>, bb: seq<nat>) returns (r: int)
    requires |aa| == |bb| == 3
    ensures r == Compare(Version(aa[0], aa[1], aa[2]), Version(bb[0], bb[1], bb[2]))
  {
    var i := 0;
    while i < 3
      invariant 0 <= i <= 3
      invariant forall j :: 0 <= j < i ==> aa[j] == bb[j]
    {
      if aa[i] < bb[i] { return -1; }
      if aa[i] > bb[i] { return 1; }
      i := i + 1;
    }
    r := 0;
  }

  /** CompareSemVer. */
  method CompareSemVer(a: string, b: string) returns (r: int)
    ensures r == Cmp(a, b)
  {
    var va := ParseVer(TrimV(a));
    var vb := ParseVer(TrimV(b));
    r := CompareNumbers([va.major, va.minor, va.patch], [vb.major, vb.minor, vb.patch]);
  }

  /** The comparison is a total preorder, with 0 for exactly the versions that parse alike. */
  lemma TotalPreorder(a: string, b: string, c: string)
    ensures Cmp(a, b) == -Cmp(b, a) && -1 <= Cmp(a, b) <= 1
    ensures Cmp(a, b) <= 0 && Cmp(b, c) <= 0 ==> Cmp(a, c) <= 0
    ensures Cmp(a, b) < 0 && Cmp(b, c) <= 0 ==> Cmp(a, c) < 0
    ensures Cmp(a, b) <= 0 && Cmp(b, c) < 0 ==> Cmp(a, c) < 0
    ensures Cmp(a, b) == 0 <==> Parse(a) == Parse(b)
  {
    CompareOrder(Parse(a), Parse(b), Parse(c));
  }

  lemma CompareOrder(a: Version, b: Version, c: Version)
    ensures Compare(a, b) == -Compare(b, a) && -1 <= Compare(a, b) <= 1
    ensures Compare(a, b) <= 0 && Compare(b, c) <= 0 ==> Compare(a, c) <= 0
    ensures Compare(a, b) < 0 && Compare(b, c) <= 0 ==> Compare(a, c) < 0
    ensures Compare(a, b) <= 0 && Compare(b, c) < 0 ==> Compare(a, c) < 0
    ensures Compare(a, b) == 0 <==> a == b
  {}

  /** Two lists of pieces joined at the seam. */
  function Seam(base: seq<string>, rest: seq<string>): (r: seq<string>)
    requires base != [] && rest != []
    ensures |r| == |base| + |rest| - 1
  {
    base[..|base| - 1] + [base[|base| - 1] + rest[0]] + rest[1..]
  }

  lemma SeamPrepend(p: string, tail: seq<string>, rest: seq<string>)
    requires tail != [] && rest != []
    ensures Seam([p] + tail, rest) == [p] + Seam(tail, rest)
  {}

  lemma SeamExtend(x: char, tail: seq<string>, rest: seq<string>)
    requires tail != [] && rest != []
    ensures Seam([[x] + tail[0]] + tail[1..], rest) == [[x] + Seam(tail, rest)[0]] + Seam(tail, rest)[1..]
  {
    var left, right := Seam([[x] + tail[0]] + tail[1..], rest), [[x] + Seam(tail, rest)[0]] + Seam(tail, rest)[1..];
    if |tail| == 1 {
      assert [x] + tail[0] + rest[0] == [x] + (tail[0] + rest[0]);
    }
    assert left[0] == right[0];
    assert left[1..] == right[1..];
    assert left == [left[0]] + left[1..];
  }

  /** Splitting a concatenation joins the last piece of the first text to the first of the second. */
  lemma {:induction false} SplitConcat(c: string, t: string)
    ensures SplitDots(c + t) == Seam(SplitDots(c), SplitDots(t))
  {
    var rest := SplitDots(t);
    if c == "" {
      assert c + t == t;
      assert SplitDots(c) == [""] && "" + rest[0] == rest[0];
    } else {
      assert (c + t)[1..] == c[1..] + t;
      SplitConcat(c[1..], t);
      if c[0] == '.' {
        SeamPrepend("", SplitDots(c[1..]), rest);
      } else {
        SeamExtend(c[0], SplitDots(c[1..]), rest);
      }
    }
  }

  lemma {:induction false} FirstPiece(t: string)
    ensures SplitDots(t)[0] == Before(t, '.')
    ensures '.' !in t ==> SplitDots(t) == [t]
  {
    if t != "" {
      FirstPiece(t[1..]);
      assert [t[0]] + t[1..] == t;
      assert '.' in t[1..] ==> '.' in t;
    }
  }

  lemma {:induction false} BeforeAppend(a: string, t: string, c: char)
    ensures Before(a + [c] + t, c) == Before(a, c)
  {
    if a != "" && a[0] != c {
      assert (a + [c] + t)[1..] == a[1..] + [c] + t;
      BeforeAppend(a[1..], t, c);
    } else {
      assert (a + [c] + t)[0] == c;
    }
  }

  // ---------------------------------------------------------------- numbers as they are written

  function Text(n: nat): string {
    if n < 10 then [(n + '0' as int) as char] else Text(n / 10) + [(n % 10 + '0' as int) as char]
  }

  lemma {:induction false} TextOfNumber(n: nat)
    ensures Text(n) != "" && AllDigits(Text(n)) && Decimal(Text(n)) == n
  {
    if n >= 10 {
      TextOfNumber(n / 10);
      assert Text(n)[..|Text(n)| - 1] == Text(n / 10);
    } else {
      assert Text(n)[..0] == "" && Decimal("") == 0;
    }
  }

  /** A written number counts as itself, or as the largest 64-bit integer if it is too large; a sign in front
      changes nothing; and what is no number counts as 0. */
  lemma AtoiReadsBack(n: nat)
    ensures Atoi(Text(n)) == (if n > 9223372036854775807 then 9223372036854775807 else n)
    ensures Atoi("+" + Text(n)) == Atoi(Text(n))
    ensures forall s :: s != "" && s[0] != '+' && !AllDigits(s) ==> Atoi(s) == 0
    ensures Atoi("") == 0
  {
    TextOfNumber(n);
    assert IsDigit(Text(n)[0]);
    assert ("+" + Text(n))[1..] == Text(n);
  }

  lemma {:induction false} NoMark(s: string, c: char)
    requires AllDigits(s) && (c == '.' || c == '-')
    ensures c !in s && Before(s, c) == s
  {
    if s != "" {
      assert forall i :: 0 <= i < |s[1..]| ==> s[1..][i] == s[i + 1];
      NoMark(s[1..], c);
      assert IsDigit(s[0]);
      assert [s[0]] + s[1..] == s;
    }
  }

  lemma ThreePieces(a: string, b: string, c: string)
    requires '.' !in a && '.' !in b && '.' !in c
    ensures SplitDots(a + "." + b + "." + c) == [a, b, c]
  {
    hide SplitDots;
    TwoPieces(b, c);
    FirstPiece(a);
    DotFirst(b + "." + c);
    SplitConcat(a, "." + (b + "." + c));
    assert a + "." + b + "." + c == a + ("." + (b + "." + c)) && a + "" == a;
    assert Seam([a], ["", b, c]) == [a + ""] + [b, c];
  }

  lemma DotFirst(s: string)
    ensures SplitDots("." + s) == [""] + SplitDots(s)
  {
    assert ("." + s)[1..] == s;
  }

  /** What is written as three numbers is read as these numbers, with or without a v in front. */
  lemma ParseReadsBack(a: nat, b: nat, c: nat)
    requires a <= MAX_INT && b <= MAX_INT && c <= MAX_INT
    ensures var s := Text(a) + "." + Text(b) + "." + Text(c);
            Parse(s) == Version(a, b, c) && Parse("v" + s) == Version(a, b, c)
  {
    var s := Text(a) + "." + Text(b) + "." + Text(c);
    PieceReadsBack(a);
    PieceReadsBack(b);
    PieceReadsBack(c);
    ThreePieces(Text(a), Text(b), Text(c));
    assert s[0] == Text(a)[0] && IsDigit(Text(a)[0]);
    assert ("v" + s)[1..] == s;
    hide Text, SplitDots, Before, Atoi;
    var parts := [Text(a), Text(b), Text(c)];
    assert Part(parts, 0) == a && Part(parts, 1) == b && Part(parts, 2) == c;
  }

  lemma PieceReadsBack(n: nat)
    requires n <= MAX_INT
    ensures Text(n) != "" && AllDigits(Text(n)) && '.' !in Text(n)
    ensures Atoi(Before(Text(n), '-')) == n
  {
    TextOfNumber(n);
    AtoiReadsBack(n);
    NoMark(Text(n), '.');
    NoMark(Text(n), '-');
  }

  /** Shorter versions are filled up with zeros. */
  lemma MissingPiecesAreZero(a: nat, b: nat)
    requires a <= MAX_INT && b <= MAX_INT
    ensures Parse(Text(a) + "." + Text(b)) == Version(a, b, 0) && Parse(Text(a)) == Version(a, 0, 0)
    ensures Parse("") == Version(0, 0, 0)
  {
    PieceReadsBack(a);
    PieceReadsBack(b);
    TwoPieces(Text(a), Text(b));
    FirstPiece(Text(a));
    assert IsDigit(Text(a)[0]) && (Text(a) + "." + Text(b))[0] == Text(a)[0];
    EmptyIsZero();
    hide Text, SplitDots, Before, Atoi;
    assert Part([Text(a), Text(b)], 0) == a && Part([Text(a), Text(b)], 1) == b && Part([Text(a)], 0) == a;
  }

  lemma EmptyIsZero()
    ensures Parse("") == Version(0, 0, 0)
  {
    assert SplitDots("") == [""] && Before("", '-') == "";
  }

  /** The first number weighs most, then the second, then the third. */
  lemma FirstDifferenceDecides(a: Version, b: Version)
    ensures Compare(a, b) == 1 <==>
              a.major > b.major
              || (a.major == b.major && (a.minor > b.minor || (a.minor == b.minor && a.patch > b.patch)))
    ensures Compare(a, b) == -1 <==> Compare(b, a) == 1
    ensures Compare(a, b) == 0 <==> a == b
  {}

  /** The pieces after the dots of a suffix that fall among the first three of the whole version are zero. */
  predicate FurtherPiecesAreZero(core: string, suffix: string) {
    var n := |SplitDots(TrimV(core))|;
    forall j :: 1 <= j <= 3 - n ==> Part(SplitDots(suffix), j) == 0
  }

  /** A pre-release version should compare below its release (item 11.3 of Semantic Versioning 2.0.0), and
      never does.  It compares equal exactly if the suffix has no further pieces that count - it has no dot, or follows
      three numbers, or they are zero - and above the release otherwise. */
  lemma PreReleaseExactly(core: string, suffix: string)
    ensures Cmp(core + "-" + suffix, core) == if FurtherPiecesAreZero(core, suffix) then 0 else 1
    ensures Parse(core + "-" + suffix) == Parse(core) <==> FurtherPiecesAreZero(core, suffix)
    ensures '.' !in suffix || |SplitDots(TrimV(core))| >= 3 ==> FurtherPiecesAreZero(core, suffix)
  {
    hide SplitDots, TrimV, Part, FromParts;
    var whole, base, pieces := SplitDots(TrimV(core + "-" + suffix)), SplitDots(TrimV(core)), SplitDots(suffix);
    TrimVAppend(core, "-" + suffix);
    assert core + "-" + suffix == core + ("-" + suffix);
    PartsWithSuffix(TrimV(core), suffix);
    NumbersWithSuffix(whole, base, pieces);
    TotalPreorder(core + "-" + suffix, core, core);
    if '.' !in suffix {
      FirstPiece(suffix);
      PartBeyond(pieces, 1);
      PartBeyond(pieces, 2);
    }
  }

  lemma PartBeyond(pieces: seq<string>, j: nat)
    ensures |pieces| <= j ==> Part(pieces, j) == 0
  {}

  /** The numbers of a version with a suffix: those of the version, then those of the further pieces. */
  lemma NumbersWithSuffix(whole: seq<string>, base: seq<string>, pieces: seq<string>)
    requires base != []
    requires forall i: nat :: i < 3 ==>
               Part(whole, i) == if i < |base| then Part(base, i) else Part(pieces, i - |base| + 1)
    ensures var zero := forall j :: 1 <= j <= 3 - |base| ==> Part(pieces, j) == 0;
            Compare(FromParts(whole), FromParts(base)) == (if zero then 0 else 1)
  {
    hide Part;
    PartBeyond(base, 1);
    PartBeyond(base, 2);
    assert Part(whole, 0) == Part(base, 0);
    if |base| == 1 {
      assert Part(whole, 1) == Part(pieces, 1) && Part(whole, 2) == Part(pieces, 2);
    } else if |base| == 2 {
      assert Part(whole, 1) == Part(base, 1) && Part(whole, 2) == Part(pieces, 1);
    } else {
      assert Part(whole, 1) == Part(base, 1) && Part(whole, 2) == Part(base, 2);
    }
  }

  /** For example 1.5-rc.1 counts as 1.5.1. */
  lemma PreReleaseCounts()
    ensures Cmp("1.5-rc.1", "1.5") == 1
  {
    hide SplitDots, Cmp, Part;
    assert "1.5-rc.1" == "1.5" + "-" + "rc.1";
    PreReleaseExactly("1.5", "rc.1");
    assert TrimV("1.5") == "1.5" == "1" + "." + "5" && "rc.1" == "rc" + "." + "1";
    TwoPieces("1", "5");
    TwoPieces("rc", "1");
    One("rc");
    assert Part(["rc", "1"], 1) == 1;
  }

  lemma One(first: string)
    ensures Part([first, "1"], 1) == 1
  {
    assert Before("1", '-') == "1" by { assert "1"[1..] == ""; }
    assert "1"[..0] == "";
    assert Decimal("") == 0;
    assert Decimal("1") == 1;
  }

  lemma TwoPieces(a: string, b: string)
    requires '.' !in a && '.' !in b
    ensures SplitDots(a + "." + b) == [a, b]
  {
    FirstPiece(a);
    FirstPiece(b);
    assert ("." + b)[1..] == b;
    assert SplitDots("." + b) == [""] + SplitDots(b);
    SplitConcat(a, "." + b);
    assert a + "." + b == a + ("." + b) && a + "" == a;
  }

  lemma TrimVAppend(core: string, t: string)
    requires t != "" && t[0] != 'v'
    ensures TrimV(core + t) == TrimV(core) + t
  {}

  lemma PartsWithSuffix(c: string, suffix: string)
    ensures var n := |SplitDots(c)|;
            forall i: nat :: i < 3 ==>
              Part(SplitDots(c + ("-" + suffix)), i)
              == if i < n then Part(SplitDots(c), i) else Part(SplitDots(suffix), i - n + 1)
  {
    var t := "-" + suffix;
    SplitConcat(c, t);
    assert t[1..] == suffix;
    var pieces := SplitDots(suffix);
    assert SplitDots(t) == [['-'] + pieces[0]] + pieces[1..];
    SeamParts(SplitDots(c), pieces);
  }

  lemma SeamParts(base: seq<string>, pieces: seq<string>)
    requires base != [] && pieces != []
    ensures forall i: nat :: i < 3 ==>
              Part(Seam(base, [['-'] + pieces[0]] + pieces[1..]), i)
              == if i < |base| then Part(base, i) else Part(pieces, i - |base| + 1)
  {
    var last := |base| - 1;
    assert base[last] + (['-'] + pieces[0]) == base[last] + ['-'] + pieces[0];
    BeforeAppend(base[last], pieces[0], '-');
  }

  // ---------------------------------------------------------------- the manifest

  /** A file of the binary directory, with what its name says when it matches the naming pattern. */
  datatype BinFile = BinFile(name: string, matched: bool, helper: bool, version: string, os: string, arch: string)

  predicate Eligible(f: BinFile) {
    f.matched && f.version != "dev" && f.os != "" && f.arch != ""
  }

  function PlatformKey(f: BinFile): string {
    (if f.helper then "helper-" else "") + f.os + "-" + f.arch
  }

  predicate Newest(files: seq<BinFile>, f: BinFile) {
    f in files && Eligible(f)
    && forall g :: g in files && Eligible(g) && PlatformKey(g) == PlatformKey(f) ==> Cmp(g.version, f.version) <= 0
  }

  /** Each platform that has an eligible file is mapped to one of maximal version. */
  ghost predicate IsManifest(files: seq<BinFile>, m: map<string, string>) {
    (forall k :: k in m <==> exists f :: f in files && Eligible(f) && PlatformKey(f) == k)
    && forall k :: k in m ==> exists f :: Newest(files, f) && PlatformKey(f) == k && f.name == m[k]
  }

  /** The candidate table after a prefix of the directory has been seen. */
  predicate BestOf(files: seq<BinFile>, best: map<string, BinFile>) {
    (forall k :: k in best ==> Newest(files, best[k]) && PlatformKey(best[k]) == k)
    && forall f :: f in files && Eligible(f) ==> PlatformKey(f) in best
  }

  lemma BestKeeps(files: seq<BinFile>, best: map<string, BinFile>, f: BinFile)
    requires BestOf(files, best)
    ensures var k := PlatformKey(f);
            BestOf(files + [f],
                   if Eligible(f) && (k !in best || Cmp(f.version, best[k].version) > 0) then best[k := f] else best)
  {
    var key := PlatformKey(f);
    var best' := if Eligible(f) && (key !in best || Cmp(f.version, best[key].version) > 0)
                 then best[key := f] else best;
    forall k | k in best' ensures Newest(files + [f], best'[k]) && PlatformKey(best'[k]) == k {
      forall g | g in files + [f] && Eligible(g) && PlatformKey(g) == k
        ensures Cmp(g.version, best'[k].version) <= 0
      {
        TotalPreorder(g.version, best'[k].version, g.version);
        if g in files && k == key && best' != best && key in best {
          TotalPreorder(g.version, best[key].version, f.version);
          TotalPreorder(best[key].version, f.version, f.version);
        }
      }
    }
  }

  /** Which files count, and under which name: those matching the pattern, of a version that is no development
      build and with a platform; helpers under a name of their own. */
  lemma ListedUnder(f: BinFile)
    ensures Eligible(f) <==> f.matched && f.version != "dev" && f.os != "" && f.arch != ""
    ensures PlatformKey(f) == if f.helper then "helper-" + (f.os + "-" + f.arch) else f.os + "-" + f.arch
  {}

  /** RebuildManifest: one pass over the directory listing. */
  method RebuildManifest(entries: seq<BinFile>) returns (manifest: map<string, string>)
    ensures IsManifest(entries, manifest)
  {
    hide Cmp, PlatformKey;
    var best: map<string, BinFile> := map[];
    var i := 0;
    while i < |entries|
      invariant 0 <= i <= |entries|
      invariant BestOf(entries[..i], best)
    {
      var f := entries[i];
      BestKeeps(entries[..i], best, f);
      assert entries[..i + 1] == entries[..i] + [f];
      if f.matched && f.version != "dev" && f.os != "" && f.arch != "" {
        var key := PlatformKey(f);
        if key !in best {
          best := best[key := f];
        } else {
          var c := CompareSemVer(f.version, best[key].version);
          if c > 0 { best := best[key := f]; }
        }
      }
      i := i + 1;
    }
    assert entries[..i] == entries;
    manifest := map k | k in best :: best[k].name;
    BestIsManifest(entries, best, manifest);
  }

  lemma BestIsManifest(files: seq<BinFile>, best: map<string, BinFile>, m: map<string, string>)
    requires BestOf(files, best)
    requires m.Keys == best.Keys && forall k :: k in m ==> m[k] == best[k].name
    ensures IsManifest(files, m)
  {}

  /** Whatever order the directory is listed in, the manifest offers the same platforms, each at a
      version that compares equal. */
  lemma ManifestIgnoresOrder(xs: seq<BinFile>, ys: seq<BinFile>, m: map<string, string>, n: map<string, string>,
                             k: string)
    requires forall f :: f in xs <==> f in ys
    requires IsManifest(xs, m) && IsManifest(ys, n)
    ensures k in m <==> k in n
    ensures k in m ==> exists f, g :: Newest(xs, f) && Newest(ys, g) && f.name == m[k] && g.name == n[k]
                                      && Cmp(f.version, g.version) == 0
  {
    if k in m {
      var f :| Newest(xs, f) && PlatformKey(f) == k && f.name == m[k];
      var g :| Newest(ys, g) && PlatformKey(g) == k && g.name == n[k];
      TotalPreorder(f.version, g.version, f.version);
    }
  }

  // ---------------------------------------------------------------- the agent never moves backwards

  /** A named update offered to an agent, and whether download and replacement succeed. */
  datatype Push = Push(version: string, installs: bool)

  /** The check at the start of selfUpgrade, followed by the replacement. */
  function Upgraded(version: string, p: Push): string {
    if p.version != "" && version != "" && version != "dev" && Cmp(p.version, version) <= 0 then version
    else if p.installs then p.version else version
  }

  /** The versions an agent runs, one more than there are pushes. */
  function Versions(start: string, pushes: seq<Push>): (r: seq<string>)
    ensures |r| == |pushes| + 1
  {
    if pushes == [] then [start]
    else
      var rs := Versions(start, pushes[..|pushes| - 1]);
      rs + [Upgraded(rs[|rs| - 1], pushes[|pushes| - 1])]
  }

  /** Exactly when an agent changes: the update installs, and the agent has no version or is a development build,
      or the update names none, or it names a higher one. */
  lemma UpgradedExactly(version: string, p: Push)
    ensures Upgraded(version, p) ==
              if p.installs
                 && (version == "" || version == "dev" || p.version == "" || Cmp(p.version, version) == 1)
              then p.version else version
  {
    TotalPreorder(p.version, version, version);
  }

  predicate Released(v: string) { v != "" && v != "dev" }

  lemma UpgradeStep(v: string, p: Push)
    requires Released(v) && p.version != ""
    ensures Released(Upgraded(v, p))
    ensures Upgraded(v, p) == v || Cmp(v, Upgraded(v, p)) < 0
  {
    TotalPreorder(v, p.version, v);
    if p.version == "dev" { DevIsLowest(v); }
  }

  lemma DevIsLowest(v: string)
    ensures Cmp("dev", v) <= 0
  {}

  /** From a release, any sequence of named pushes takes the agent through versions that never
      decrease, and each actual change is to a strictly higher one. */
  lemma {:induction false} VersionsIncrease(start: string, pushes: seq<Push>, i: nat, j: nat)
    requires Released(start) && forall k :: 0 <= k < |pushes| ==> pushes[k].version != ""
    requires i <= j <= |pushes|
    ensures var vs := Versions(start, pushes);
            Released(vs[j]) && (vs[i] == vs[j] || Cmp(vs[i], vs[j]) < 0)
  {
    var n := |pushes|;
    if n > 0 {
      var init := pushes[..n - 1];
      var vs, ws := Versions(start, pushes), Versions(start, init);
      if j < n {
        VersionsIncrease(start, init, i, j);
      } else {
        VersionsIncrease(start, init, if i < n then i else n - 1, n - 1);
        UpgradeStep(ws[n - 1], pushes[n - 1]);
        TotalPreorder(vs[i], vs[n - 1], vs[n]);
      }
    }
  }
}
