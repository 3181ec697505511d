/** File names in their byte order: a set of names has exactly one sorted listing. */
module Names {

  import opened Prelude

  predicate Less(a: string, b: string) {
    if b == "" then false
    else if a == "" then true
    else if a[0] != b[0] then a[0] < b[0]
    else Less(a[1..], b[1..])
  }

  lemma {:induction false} LessTrans(a: string, b: string, c: string)
    requires Less(a, b) && Less(b, c)
    ensures Less(a, c)
  {
    if a != "" && a[0] == b[0] && b[0] == c[0] { LessTrans(a[1..], b[1..], c[1..]); }
  }

  lemma {:induction false} LessTotal(a: string, b: string)
    ensures a == b || Less(a, b) || Less(b, a)
    ensures Less(a, b) ==> a != b && !Less(b, a)
  {
    if a != "" && b != "" && a[0] == b[0] {
      LessTotal(a[1..], b[1..]);
      assert a == [a[0]] + a[1..] && b == [b[0]] + b[1..];
    }
  }

  /** Byte order: a shorter beginning comes first, else the first differing character decides. */
  lemma {:induction false} LessExactly(a: string, b: string)
    ensures Less(a, b) <==>
              a < b || exists i :: 0 <= i < |a| && i < |b| && a[..i] == b[..i] && a[i] < b[i]
  {
    if a == "" || b == "" {
      assert a == "" && b != "" ==> a < b;
    } else if a[0] != b[0] {
      if a[0] < b[0] { assert a[..0] == b[..0]; }
    } else {
      LessExactly(a[1..], b[1..]);
      assert a < b <==> a[1..] < b[1..] by {
        assert a == [a[0]] + a[1..] && b == [b[0]] + b[1..];
      }
      if i :| 0 <= i < |a[1..]| && i < |b[1..]| && a[1..][..i] == b[1..][..i] && a[1..][i] < b[1..][i] {
        assert a[..i + 1] == [a[0]] + a[1..][..i] && b[..i + 1] == [b[0]] + b[1..][..i];
        assert a[i + 1] < b[i + 1];
      }
      if i :| 0 <= i < |a| && i < |b| && a[..i] == b[..i] && a[i] < b[i] {
        assert i > 0 && a[1..][..i - 1] == a[..i][1..] && b[1..][..i - 1] == b[..i][1..];
        assert a[1..][i - 1] < b[1..][i - 1];
      }
    }
  }

  /** Strictly increasing. */
  predicate Sorted(s: seq<string>) { forall i, j :: 0 <= i < j < |s| ==> Less(s[i], s[j]) }

  ghost predicate Lists(s: seq<string>, names: set<string>) { forall n :: n in s <==> n in names }

  /** Two sorted listings of one set are the same. */
  lemma {:induction false} SortedListingIsUnique(s: seq<string>, t: seq<string>, names: set<string>)
    requires Sorted(s) && Sorted(t) && Lists(s, names) && Lists(t, names)
    ensures s == t
  {
    hide Less;
    assert t != [] ==> t[0] in names && t[0] in s;
    if s != [] {
      assert s[0] in names;
      assert t != [] && t[0] in s;
      HeadIsLeast(s, t);
      HeadIsLeast(t, s);
      LessTotal(s[0], t[0]);
      TailLists(s, names);
      TailLists(t, names);
      SortedListingIsUnique(s[1..], t[1..], names - {s[0]});
    }
  }

  lemma HeadIsLeast(s: seq<string>, t: seq<string>)
    requires s != [] && t != [] && Sorted(s) && t[0] in s
    ensures s[0] == t[0] || Less(s[0], t[0])
  {}

  lemma TailLists(s: seq<string>, names: set<string>)
    requires s != [] && Sorted(s) && Lists(s, names)
    ensures Sorted(s[1..]) && Lists(s[1..], names - {s[0]})
  {
    hide Less;
    forall n ensures n in s[1..] <==> n in names - {s[0]} {
      if n in s[1..] {
        var i :| 1 <= i < |s| && s[i] == n;
        LessTotal(s[0], n);
      }
      if n in names - {s[0]} {
        var i :| 0 <= i < |s| && s[i] == n;
        assert s[1..][i - 1] == n;
      }
    }
  }

  // ---------------------------------------------------------------- sorting

  function Insert(x: string, s: seq<string>): seq<string> {
    if s == [] then [x]
    else if Less(x, s[0]) then [x] + s
    else if x == s[0] then s
    else [s[0]] + Insert(x, s[1..])
  }

  lemma {:induction false} InsertMembers(x: string, s: seq<string>)
    ensures forall n :: n in Insert(x, s) <==> n == x || n in s
  {
    if s != [] && !Less(x, s[0]) && x != s[0] { InsertMembers(x, s[1..]); }
  }

  lemma {:induction false} InsertSorts(x: string, s: seq<string>)
    requires Sorted(s)
    ensures Sorted(Insert(x, s))
  {
    hide Less;
    if s != [] {
      LessTotal(x, s[0]);
      if Less(x, s[0]) {
        forall j | 0 < j < |s| ensures Less(x, s[j]) { LessTrans(x, s[0], s[j]); }
      } else if x != s[0] {
        InsertSorts(x, s[1..]);
        InsertMembers(x, s[1..]);
        var r := Insert(x, s[1..]);
        forall j | 0 <= j < |r| ensures Less(s[0], r[j]) {
          assert r[j] in r;
          if r[j] != x {
            var i :| 0 <= i < |s[1..]| && s[1..][i] == r[j];
            assert s[i + 1] == r[j];
          }
        }
      }
    }
  }

  /** The names in order, whatever order they are picked up in. */
  method SortedNames(names: set<string>) returns (r: seq<string>)
    ensures Sorted(r) && Lists(r, names)
  {
    hide Less, Insert, Sorted;
    r := [];
    var todo := names;
    assert Sorted(r) by { EmptySorted(); }
    while todo != {}
      invariant todo <= names && Sorted(r) && Lists(r, names - todo)
    {
      HasMember(todo);
      var n :| n in todo;
      InsertSorts(n, r);
      InsertMembers(n, r);
      r := Insert(n, r);
      todo := todo - {n};
    }
  }

  lemma EmptySorted()
    ensures Sorted([])
  {}

  /** The sorted listing as a function of the set. */
  ghost function Listing(names: set<string>): (s: seq<string>)
    ensures Sorted(s) && Lists(s, names)
  {
    ListingExists(names);
    var s :| Sorted(s) && Lists(s, names); s
  }

  lemma {:induction false} ListingExists(names: set<string>)
    ensures exists s :: Sorted(s) && Lists(s, names)
    decreases |names|
  {
    hide Less;
    if names == {} {
      assert Sorted([]) && Lists([], names);
    } else {
      HasMember(names);
      var n :| n in names;
      ListingExists(names - {n});
      var s :| Sorted(s) && Lists(s, names - {n});
      InsertSorts(n, s);
      InsertMembers(n, s);
      assert Lists(Insert(n, s), names);
    }
  }
}
