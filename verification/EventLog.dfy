/** The manager's event log: a file of every event, a ring of the latest ones, and queries that choose
    between the two. */
module EventLog {

  import opened Ring

  /** Times are positive; 0 is the zero time, and in a filter it means "no bound". */
  datatype Event = Event(time: nat, category: string, node: string, status: string, detail: string)

  datatype Filter = Filter(category: string, status: string, node: string, from: nat, to: nat)

  // ---------------------------------------------------------------- specification

  predicate Matches(f: Filter, e: Event) {
    (f.category == "" || e.category == f.category)
    && (f.status == "" || e.status == f.status)
    && (f.node == "" || e.node == f.node)
    && (f.from == 0 || e.time >= f.from)
    && (f.to == 0 || e.time <= f.to)
  }

  function Select(s: seq<Event>, f: Filter): seq<Event> {
    if s == [] then []
    else Select(s[..|s| - 1], f) + (if Matches(f, s[|s| - 1]) then [s[|s| - 1]] else [])
  }

  function Reverse(s: seq<Event>): (r: seq<Event>)
    ensures |r| == |s| && forall i :: 0 <= i < |s| ==> r[i] == s[|s| - 1 - i]
  {
    if s == [] then [] else [s[|s| - 1]] + Reverse(s[..|s| - 1])
  }

  /** A missing limit means 50; no page is longer than 5000. */
  function Limit(limit: int): nat {
    if limit <= 0 then 50 else if limit > 5000 then 5000 else limit
  }

  function Page(s: seq<Event>, limit: int, offset: nat): seq<Event> {
    if offset >= |s| then [] else s[offset..Min(offset + Limit(limit), |s|)]
  }

  /** The answer a scan of the whole log would give, newest first. */
  function FullAnswer(log: seq<Event>, f: Filter): seq<Event> {
    Reverse(Select(log, f))
  }

  ghost predicate Increasing(s: seq<Event>) {
    forall i, j :: 0 <= i < j < |s| ==> s[i].time < s[j].time
  }

  lemma {:induction false} SelectSplits(a: seq<Event>, b: seq<Event>, f: Filter)
    ensures Select(a + b, f) == Select(a, f) + Select(b, f)
  {
    if b == [] {
      assert a + b == a;
    } else {
      var n := |b| - 1;
      assert (a + b)[..|a + b| - 1] == a + b[..n];
      SelectSplits(a, b[..n], f);
    }
  }

  lemma {:induction false} SelectNone(s: seq<Event>, f: Filter)
    requires forall i :: 0 <= i < |s| ==> !Matches(f, s[i])
    ensures Select(s, f) == []
  {
    if s != [] { SelectNone(s[..|s| - 1], f); }
  }

  /** The events from k on decide a query that starts no earlier than event k. */
  lemma TailSuffices(s: seq<Event>, k: nat, f: Filter)
    requires Increasing(s) && k < |s| && f.from != 0 && f.from >= s[k].time
    ensures Select(s, f) == Select(s[k..], f)
  {
    assert s == s[..k] + s[k..];
    SelectSplits(s[..k], s[k..], f);
    SelectNone(s[..k], f);
  }

  /** A selection keeps order and time stamps. */
  lemma {:induction false} SelectIncreases(s: seq<Event>, f: Filter)
    requires Increasing(s)
    ensures Increasing(Select(s, f))
    ensures forall e :: e in Select(s, f) <==> e in s && Matches(f, e)
  {
    if s != [] {
      var n := |s| - 1;
      assert s == s[..n] + [s[n]];
      SelectIncreases(s[..n], f);
      var r := Select(s[..n], f);
      forall i | 0 <= i < |r| ensures r[i].time < s[n].time {
        assert r[i] in s[..n];
      }
    }
  }

  // ---------------------------------------------------------------- the logger

  /** The ring holds the last lines of the file, in the slots the index arithmetic expects. */
  ghost predicate RingOk(slots: seq<Event>, writeIdx: nat, file: seq<Event>) {
    writeIdx <= |file|
    && (writeIdx == 0 ==> file == [])
    && (forall i :: 0 <= i < |file| ==> file[i].time > 0)
    && Holds(slots, file[|file| - writeIdx..], Min(writeIdx, |slots|))
  }

  /** Which starts leave the ring in order. */
  predicate FitsRing(read: nat, lines: nat, size: nat)
    requires size > 0
  {
    (read == 0 ==> lines == 0) && (read <= size || read % size == 0)
  }

  lemma TailIncreases(s: seq<Event>, k: nat)
    requires Increasing(s) && k <= |s|
    ensures Increasing(s[k..])
  {}

  class Logger {
    var events: array<Event>
    var writeIdx: nat
    const maxSize: nat
    /** The lines of the log file, oldest first. */
    var file: seq<Event>

    function Count(): nat reads this { Min(writeIdx, maxSize) }

    ghost predicate Valid()
      reads this, events
    {
      maxSize > 0 && events.Length == maxSize && RingOk(events[..], writeIdx, file)
    }

    ghost function Window(): seq<Event>
      reads this
      requires writeIdx <= |file|
    {
      file[|file| - Count()..]
    }

    /** Opens a log with the given lines; sizes under 100 mean 10000. */
    constructor (lines: seq<Event>, size: nat)
      requires forall i :: 0 <= i < |lines| ==> lines[i].time > 0
      ensures file == lines && maxSize == (if size < 100 then 10000 else size)
      ensures writeIdx == 0 && events.Length == maxSize && fresh(events)
    {
      maxSize := if size < 100 then 10000 else size;
      events := new Event[if size < 100 then 10000 else size](_ => Event(0, "", "", "", ""));
      file := lines;
      writeIdx := 0;
    }

    /** reloadFromDisk: the last `read` lines were read; the latest of them fill the ring from slot 0,
        and the index is set to their number. */
    method Reload(read: nat)
      requires read <= |file| && maxSize > 0 && events.Length == maxSize
      modifies this`writeIdx, events
      ensures writeIdx == read
      ensures var loaded := Min(read, maxSize);
              events[..loaded] == file[|file| - loaded..]
    {
      var start := 0;
      if read > maxSize { start := read - maxSize; }
      var all := file[|file| - read..];
      var i := 0;
      while i < |all| - start
        invariant 0 <= i <= |all| - start
        invariant forall j :: 0 <= j < i ==> events[j] == all[start + j]
      {
        events[i] := all[start + i];
        i := i + 1;
      }
      writeIdx := |all|;
    }

    /** Start-up.  Reading nothing is only right for an empty file, and a read that overfills the ring
        must fill it a whole number of times; in a log in order of time, any other start leaves the ring
        rotated. */
    method Open(read: nat)
      requires read <= |file| && maxSize > 0 && events.Length == maxSize
      requires forall i :: 0 <= i < |file| ==> file[i].time > 0
      modifies this`writeIdx, events
      ensures writeIdx == read && events[..Min(read, maxSize)] == file[|file| - Min(read, maxSize)..]
      ensures FitsRing(read, |file|, maxSize) ==> Valid()
      ensures Increasing(file) ==> (Valid() <==> FitsRing(read, |file|, maxSize))
    {
      hide Increasing, RingOk;
      Reload(read);
      assert events[..][..Min(read, maxSize)] == events[..Min(read, maxSize)];
      OpenedRing(events[..], file, read);
    }

    /** The memory and file part of logEvent. */
    method LogEvent(e: Event)
      requires Valid() && e.time > 0
      modifies this`writeIdx, this`file, events
      ensures Valid() && file == old(file) + [e] && writeIdx == old(writeIdx) + 1
    {
      ghost var seen := file[|file| - writeIdx..];
      ghost var slots := events[..];
      WriteHolds(slots, seen, Count(), e);
      events[writeIdx % maxSize] := e;
      assert events[..] == slots[writeIdx % maxSize := e];
      writeIdx := writeIdx + 1;
      file := file + [e];
      assert file[|file| - writeIdx..] == seen + [e];
    }

    method Snapshot() returns (snapshot: seq<Event>)
      requires Valid()
      ensures snapshot == Window()
    {
      var total := writeIdx;
      if total > maxSize { total := maxSize; }
      var start := writeIdx - total;
      snapshot := [];
      var i := start;
      ghost var seen := file[|file| - writeIdx..];
      while i < writeIdx
        invariant start <= i <= writeIdx
        invariant snapshot == seen[start..i]
      {
        assert events[..][i % maxSize] == seen[i];
        var e := events[i % maxSize];
        if e.time != 0 { snapshot := snapshot + [e]; }
        i := i + 1;
      }
    }

    /** The test shared by QueryByTime and CountByTime. */
    method NeedDisk(from: nat, to: nat) returns (need: bool)
      requires Valid()
      ensures need <==> (from != 0 && Window() != [] && from < Window()[0].time) || (to != 0 && writeIdx > maxSize)
    {
      need := false;
      if from != 0 && writeIdx > 0 {
        var total := writeIdx;
        if total > maxSize { total := maxSize; }
        var oldestIdx := writeIdx - total;
        ghost var seen := file[|file| - writeIdx..];
        assert events[..][oldestIdx % maxSize] == seen[oldestIdx];
        if from < events[oldestIdx % maxSize].time { need := true; }
      }
      if !need && to != 0 && writeIdx > maxSize { need := true; }
    }

    /** What a query runs over. */
    ghost function Source(f: Filter): seq<Event>
      reads this
      requires writeIdx <= |file|
    {
      if (f.from != 0 && Window() != [] && f.from < Window()[0].time) || (f.to != 0 && writeIdx > maxSize)
      then file else Window()
    }

    method QueryByTime(f: Filter, limit: int, offset: nat) returns (page: seq<Event>)
      requires Valid()
      ensures page == Page(FullAnswer(Source(f), f), limit, offset)
      ensures Increasing(file) && f.from != 0 ==> page == Page(FullAnswer(file, f), limit, offset)
    {
      hide Increasing, Select, Reverse, RingOk;
      var filtered := Collect(f);
      filtered := NewestFirst(filtered);
      page := TakePage(filtered, limit, offset);
    }

    method CountByTime(f: Filter) returns (count: nat)
      requires Valid()
      ensures count == |FullAnswer(Source(f), f)|
      ensures Increasing(file) && f.from != 0 ==> count == |FullAnswer(file, f)|
    {
      hide Increasing, RingOk;
      var need := NeedDisk(f.from, f.to);
      var source := file;
      if !need { source := Snapshot(); }
      if Increasing(file) && f.from != 0 { SourceSuffices(f); }
      count := CountEvents(source, f);
    }

    /** The choice between disk and ring, and the scan. */
    method Collect(f: Filter) returns (filtered: seq<Event>)
      requires Valid()
      ensures filtered == Select(Source(f), f)
      ensures Increasing(file) && f.from != 0 ==> filtered == Select(file, f)
    {
      hide Increasing, Select, RingOk;
      var need := NeedDisk(f.from, f.to);
      var source := file;
      if !need { source := Snapshot(); }
      filtered := FilterEvents(source, f);
      if Increasing(file) && f.from != 0 { SourceSuffices(f); }
    }

    /** QueryFiltered never looks at the file. */
    method QueryFiltered(category: string, status: string, limit: int, offset: nat) returns (page: seq<Event>)
      requires Valid()
      ensures page == Page(FullAnswer(Window(), Filter(category, status, "", 0, 0)), limit, offset)
    {
      hide Select, Reverse, RingOk;
      var snapshot := Snapshot();
      var filtered := FilterEvents(snapshot, Filter(category, status, "", 0, 0));
      filtered := NewestFirst(filtered);
      page := TakePage(filtered, limit, offset);
    }

    /** Whichever source a query with a lower bound chooses, it selects what the file would. */
    lemma SourceSuffices(f: Filter)
      requires Valid() && Increasing(file) && f.from != 0
      ensures Select(Source(f), f) == Select(file, f)
    {
      if Source(f) != file {
        TailSuffices(file, |file| - Count(), f);
      }
    }

    /** Without a lower bound the answer is that of the whole log exactly if the query goes to disk - an
        upper bound on a ring that has wrapped - or no event outside the ring matches.  So an upper bound
        is enough once the ring was filled from an empty log or a file read whole. */
    lemma WithoutLowerBoundExactly(f: Filter)
      requires Valid() && f.from == 0
      ensures Select(Source(f), f) == Select(file, f) <==>
                (f.to != 0 && writeIdx > maxSize)
                || forall i :: 0 <= i < |file| - Count() ==> !Matches(f, file[i])
      ensures writeIdx == |file| && f.to != 0 ==> Select(Source(f), f) == Select(file, f)
    {
      hide Matches, Select, Holds;
      var outside := file[..|file| - Count()];
      assert file == outside + Window();
      SelectSplits(outside, Window(), f);
      SelectNothingExactly(outside, f);
      assert forall i :: 0 <= i < |outside| ==> outside[i] == file[i];
      assert Select(Window(), f) == Select(file, f) <==> |Select(outside, f)| == 0 by {
        if |Select(outside, f)| == 0 { assert Select(outside, f) + Select(Window(), f) == Select(Window(), f); }
      }
    }
  }

  lemma {:induction false} SelectNothingExactly(s: seq<Event>, f: Filter)
    ensures Select(s, f) == [] <==> forall i :: 0 <= i < |s| ==> !Matches(f, s[i])
  {
    if s != [] {
      var n := |s| - 1;
      SelectNothingExactly(s[..n], f);
      assert forall i :: 0 <= i < n ==> s[..n][i] == s[i];
    }
  }

  /** The chain of tests in the scanning loops. */
  predicate MatchesEvent(f: Filter, e: Event) {
    if f.category != "" && e.category != f.category then false
    else if f.status != "" && e.status != f.status then false
    else if f.node != "" && e.node != f.node then false
    else if f.from != 0 && e.time < f.from then false
    else !(f.to != 0 && e.time > f.to)
  }

  method FilterEvents(source: seq<Event>, f: Filter) returns (filtered: seq<Event>)
    ensures filtered == Select(source, f)
  {
    filtered := [];
    var i := 0;
    while i < |source|
      invariant 0 <= i <= |source| && filtered == Select(source[..i], f)
    {
      assert source[..i + 1][..i] == source[..i];
      if MatchesEvent(f, source[i]) { filtered := filtered + [source[i]]; }
      i := i + 1;
    }
    assert source[..i] == source;
  }

  method CountEvents(source: seq<Event>, f: Filter) returns (count: nat)
    ensures count == |Select(source, f)|
  {
    count := 0;
    var i := 0;
    while i < |source|
      invariant 0 <= i <= |source| && count == |Select(source[..i], f)|
    {
      assert source[..i + 1][..i] == source[..i];
      if MatchesEvent(f, source[i]) { count := count + 1; }
      i := i + 1;
    }
    assert source[..i] == source;
  }

  /** The limit and the slice shared by the queries. */
  method TakePage(filtered: seq<Event>, limit: int, offset: nat) returns (page: seq<Event>)
    ensures page == Page(filtered, limit, offset)
  {
    var limit' := limit;
    if limit' <= 0 { limit' := 50; }
    if limit' > 5000 { limit' := 5000; }
    if offset >= |filtered| { return []; }
    var end := offset + limit';
    if end > |filtered| { end := |filtered|; }
    page := filtered[offset..end];
  }

  /** The in-place reversal of the result slice. */
  method NewestFirst(s: seq<Event>) returns (r: seq<Event>)
    ensures r == Reverse(s)
  {
    r := s;
    var i, j := 0, |s| - 1;
    while i < j
      invariant 0 <= i && j == |s| - 1 - i && i <= j + 1 && |r| == |s|
      invariant forall k :: i <= k <= j ==> r[k] == s[k]
      invariant forall k :: 0 <= k < |s| && (k < i || k > j) ==> r[k] == s[|s| - 1 - k]
    {
      var t := r[i];
      r := r[i := r[j]];
      r := r[j := t];
      i, j := i + 1, j - 1;
    }
  }

  // ---------------------------------------------------------------- reloading

  ghost predicate Loaded(slots: seq<Event>, read: seq<Event>) {
    |slots| > 0 && var loaded := Min(|read|, |slots|); slots[..loaded] == read[|read| - loaded..]
  }

  /** The state Reload leaves is usable exactly when the number of lines read fits the ring or fills it
      a whole number of times; otherwise the ring is rotated against its index. */
  lemma ReloadIsOrderedIff(slots: seq<Event>, read: seq<Event>)
    requires Loaded(slots, read) && Increasing(read)
    ensures Holds(slots, read, Min(|read|, |slots|)) <==> |read| <= |slots| || |read| % |slots| == 0
  {
    if |read| <= |slots| {
      ShortReload(slots, read);
    } else if |read| % |slots| == 0 {
      WholeLapsReload(slots, read);
    } else {
      RotatedReload(slots, read);
    }
  }

  lemma OpenedRing(slots: seq<Event>, file: seq<Event>, read: nat)
    requires |slots| > 0 && read <= |file| && forall i :: 0 <= i < |file| ==> file[i].time > 0
    requires slots[..Min(read, |slots|)] == file[|file| - Min(read, |slots|)..]
    ensures FitsRing(read, |file|, |slots|) ==> RingOk(slots, read, file)
    ensures Increasing(file) ==> (RingOk(slots, read, file) <==> FitsRing(read, |file|, |slots|))
  {
    hide Increasing, Holds;
    var lines := file[|file| - read..];
    assert slots[..Min(read, |slots|)] == lines[read - Min(read, |slots|)..];
    if read <= |slots| {
      ShortReload(slots, lines);
    } else if read % |slots| == 0 {
      WholeLapsReload(slots, lines);
    } else if Increasing(file) {
      TailIncreases(file, |file| - read);
      RotatedReload(slots, lines);
    }
  }

  lemma ShortReload(slots: seq<Event>, read: seq<Event>)
    requires Loaded(slots, read) && |read| <= |slots|
    ensures Holds(slots, read, |read|)
  {
    forall i {:trigger read[i]} | 0 <= i < |read| ensures slots[i % |slots|] == read[i] {
      assert slots[..|read|][i] == read[i];
    }
  }

  lemma WholeLapsReload(slots: seq<Event>, read: seq<Event>)
    requires Loaded(slots, read) && |read| > |slots| && |read| % |slots| == 0
    ensures Holds(slots, read, |slots|)
  {
    var size, n := |slots|, |read|;
    forall i {:trigger read[i]} | n - size <= i < n ensures slots[i % size] == read[i] {
      SlotAfterWholeLaps(n, size, i);
      assert slots[..size][i - (n - size)] == read[n - size..][i - (n - size)];
    }
  }

  lemma RotatedReload(slots: seq<Event>, read: seq<Event>)
    requires Loaded(slots, read) && Increasing(read) && |read| > |slots| && |read| % |slots| != 0
    ensures !Holds(slots, read, |slots|)
  {
    var size, n := |slots|, |read|;
    var r := n % size;
    LastSlot(n, size);
    assert slots[..size][r - 1] == read[n - size..][r - 1];
    assert read[n - size + r - 1].time < read[n - 1].time;
  }

  lemma SlotAfterWholeLaps(n: nat, size: nat, i: nat)
    requires size > 0 && n >= size && n % size == 0 && n - size <= i < n
    ensures i % size == i - (n - size)
  {
    var q := n / size;
    assert n == size * q;
    assert i == size * (q - 1) + (i - (n - size));
    DivUnique(i, size, q - 1, i - (n - size));
  }

  lemma LastSlot(n: nat, size: nat)
    requires size > 0 && n % size != 0
    ensures (n - 1) % size == n % size - 1
  {
    assert n - 1 == size * (n / size) + (n % size - 1);
    DivUnique(n - 1, size, n / size, n % size - 1);
  }

  lemma DivUnique(a: nat, size: nat, q: int, r: nat)
    requires size > 0 && a == size * q + r && r < size
    ensures a % size == r
  {
    var d := a / size - q;
    assert size * d == r - a % size;
  }

  // ---------------------------------------------------------------- paging

  /** Where page m starts. */
  function Offset(limit: int, m: nat): nat {
    if m == 0 then 0 else Offset(limit, m - 1) + Limit(limit)
  }

  /** The first m pages, one after the other. */
  function Pages(s: seq<Event>, limit: int, m: nat): seq<Event> {
    if m == 0 then [] else Pages(s, limit, m - 1) + Page(s, limit, Offset(limit, m - 1))
  }

  lemma {:induction false} PagesArePrefix(s: seq<Event>, limit: int, m: nat)
    ensures Pages(s, limit, m) == s[..Min(Offset(limit, m), |s|)]
  {
    hide Limit;
    if m > 0 {
      PagesArePrefix(s, limit, m - 1);
      NextPage(s, Offset(limit, m - 1), Limit(limit));
    }
  }

  lemma NextPage(s: seq<Event>, offset: nat, size: nat)
    ensures s[..Min(offset, |s|)] + (if offset >= |s| then [] else s[offset..Min(offset + size, |s|)])
         == s[..Min(offset + size, |s|)]
  {}

  lemma ReverseMembers(s: seq<Event>)
    ensures forall e :: e in Reverse(s) <==> e in s
  {}

  predicate NoDuplicates(s: seq<Event>) {
    forall i, j :: 0 <= i < j < |s| ==> s[i] != s[j]
  }

  lemma ReverseNoDuplicates(s: seq<Event>)
    requires Increasing(s)
    ensures NoDuplicates(Reverse(s))
  {}

  lemma ReverseDescends(s: seq<Event>)
    requires Increasing(s)
    ensures forall i, j :: 0 <= i < j < |Reverse(s)| ==> Reverse(s)[i].time > Reverse(s)[j].time
  {}

  /** A page is the stretch from the offset on; it has 50 events if no limit is given, never more than 5000,
      and fewer only at the end. */
  lemma PageIs(s: seq<Event>, limit: int, offset: nat)
    ensures var page := Page(s, limit, offset);
            (forall i :: 0 <= i < |page| ==> offset + i < |s| && page[i] == s[offset + i])
            && |page| <= 5000 && (limit > 0 ==> |page| <= limit) && (limit <= 0 ==> |page| <= 50)
            && (offset + |page| < |s| ==> |page| == if limit <= 0 then 50 else if limit <= 5000 then limit else 5000)
  {}

  /** Consecutive pages put together are the whole answer, without duplicates: once they are as many as
      needed, they contain exactly the matching events of the log, as many as the count says. */
  lemma PagesCoverTheLog(log: seq<Event>, f: Filter, limit: int, m: nat)
    requires Increasing(log) && Offset(limit, m) >= |FullAnswer(log, f)|
    ensures Pages(FullAnswer(log, f), limit, m) == FullAnswer(log, f)
    ensures NoDuplicates(FullAnswer(log, f))
    ensures forall e :: e in FullAnswer(log, f) <==>
              e in log && (f.category == "" || f.category == e.category) && (f.status == "" || f.status == e.status)
              && (f.node == "" || f.node == e.node) && f.from <= e.time && (f.to == 0 || e.time <= f.to)
    ensures forall i, j :: 0 <= i < j < |FullAnswer(log, f)| ==> FullAnswer(log, f)[i].time > FullAnswer(log, f)[j].time
  {
    hide Select, Increasing, NoDuplicates, Pages, Limit, Offset;
    PagesArePrefix(FullAnswer(log, f), limit, m);
    SelectIncreases(log, f);
    ReverseMembers(Select(log, f));
    ReverseNoDuplicates(Select(log, f));
    ReverseDescends(Select(log, f));
  }
}
