/** Per-minute request counts of the last two days, and the windows shown from them. */
module AccessStats {

  import opened Prelude

  /** Counts are kept under the client address, and the minute's total under this extra name. */
  const TOTAL := "__total__"
  const MAX_AGE := 48 * 60 + 10

  type Counts = map<string, nat>
  type Buckets = map<int, Counts>

  /** A request made by a client in a minute. */
  datatype Hit = Hit(minute: int, ip: string)

  function Minute(seconds: int): int { seconds / 60 }

  function Get(c: Counts, k: string): nat { if k in c then c[k] else 0 }

  // ---------------------------------------------------------------- counting the requests made

  function Hits(log: seq<Hit>, m: int): nat {
    if log == [] then 0
    else Hits(log[..|log| - 1], m) + (if log[|log| - 1].minute == m then 1 else 0)
  }

  function HitsBy(log: seq<Hit>, m: int, ip: string): nat {
    if log == [] then 0
    else HitsBy(log[..|log| - 1], m, ip) + (if log[|log| - 1] == Hit(m, ip) then 1 else 0)
  }

  /** Requests in the n minutes from lo on. */
  function HitsIn(log: seq<Hit>, lo: int, n: nat): nat {
    if log == [] then 0
    else HitsIn(log[..|log| - 1], lo, n) + (if lo <= log[|log| - 1].minute < lo + n then 1 else 0)
  }

  function Sum(s: seq<nat>): nat {
    if s == [] then 0 else Sum(s[..|s| - 1]) + s[|s| - 1]
  }

  ghost function SumOf(c: Counts): nat {
    if c == map[] then 0 else var k :| k in c; c[k] + SumOf(c - {k})
  }

  lemma {:induction false} SumRemove(c: Counts, k: string)
    requires k in c
    ensures SumOf(c) == c[k] + SumOf(c - {k})
    decreases |c|
  {
    var p :| p in c && SumOf(c) == c[p] + SumOf(c - {p});
    if p != k {
      SumRemove(c - {p}, k);
      SumRemove(c - {k}, p);
      assert c - {p} - {k} == c - {k} - {p};
    }
  }

  lemma SumIncrement(c: Counts, k: string, n: nat)
    ensures SumOf(c[k := Get(c, k) + n]) == SumOf(c) + n
  {
    var c' := c[k := Get(c, k) + n];
    SumRemove(c', k);
    assert c' - {k} == c - {k};
    if k in c { SumRemove(c, k); } else { assert c - {k} == c; }
  }

  /** The requests of a window, minute by minute. */
  lemma {:induction false} WindowSum(log: seq<Hit>, lo: int, series: seq<nat>)
    requires forall i :: 0 <= i < |series| ==> series[i] == Hits(log, lo + i)
    ensures Sum(series) == HitsIn(log, lo, |series|)
  {
    if series == [] {
      EmptyWindow(log, lo);
    } else {
      var n := |series| - 1;
      WindowSum(log, lo, series[..n]);
      WindowGrows(log, lo, n);
    }
  }

  lemma {:induction false} EmptyWindow(log: seq<Hit>, lo: int)
    ensures HitsIn(log, lo, 0) == 0
  {
    if log != [] { EmptyWindow(log[..|log| - 1], lo); }
  }

  lemma {:induction false} WindowGrows(log: seq<Hit>, lo: int, n: nat)
    ensures HitsIn(log, lo, n + 1) == HitsIn(log, lo, n) + Hits(log, lo + n)
  {
    if log != [] { WindowGrows(log[..|log| - 1], lo, n); }
  }

  // ---------------------------------------------------------------- steps

  function Recorded(c: Counts, ip: string): Counts {
    var c' := c[ip := Get(c, ip) + 1];
    c'[TOTAL := Get(c', TOTAL) + 1]
  }

  function Prune(bs: Buckets, cutoff: int): Buckets {
    map m | m in bs && m >= cutoff :: bs[m]
  }

  function RecordStep(bs: Buckets, ip: string, minute: int): Buckets {
    var bs' := if minute in bs then bs else Prune(bs[minute := map[]], minute - MAX_AGE);
    bs'[minute := Recorded(if minute in bs then bs[minute] else map[], ip)]
  }

  // ---------------------------------------------------------------- the invariant

  /** A bucket counts the requests of its minute, one by one and in total. */
  ghost predicate Counted(c: Counts, log: seq<Hit>, m: int) {
    (forall ip :: ip != TOTAL ==> Get(c, ip) == HitsBy(log, m, ip))
    && (forall ip :: ip in c && ip != TOTAL ==> c[ip] > 0)
    && Get(c, TOTAL) == Hits(log, m)
    && SumOf(c - {TOTAL}) == Hits(log, m)
  }

  /** Every bucket is right, and no minute young enough to be shown is missing one. */
  ghost predicate Ok(bs: Buckets, log: seq<Hit>, now: int) {
    (forall m :: m in bs ==> Counted(bs[m], log, m))
    && (forall m :: m !in bs && m >= now - MAX_AGE ==> Hits(log, m) == 0)
    && (forall i :: 0 <= i < |log| ==> log[i].minute <= now && log[i].ip != TOTAL)
  }

  lemma {:induction false} NoHitsNoIp(log: seq<Hit>, m: int, ip: string)
    ensures HitsBy(log, m, ip) <= Hits(log, m)
  {
    if log != [] { NoHitsNoIp(log[..|log| - 1], m, ip); }
  }

  lemma EmptyCounted(log: seq<Hit>, m: int)
    requires Hits(log, m) == 0
    ensures Counted(map[], log, m)
  {}

  lemma CountedOther(c: Counts, log: seq<Hit>, m: int, h: Hit)
    requires Counted(c, log, m) && h.minute != m
    ensures Counted(c, log + [h], m) && Hits(log + [h], m) == Hits(log, m)
  {}

  lemma RecordedCounted(c: Counts, log: seq<Hit>, m: int, ip: string)
    requires Counted(c, log, m) && ip != TOTAL
    ensures Counted(Recorded(c, ip), log + [Hit(m, ip)], m)
  {
    assert (log + [Hit(m, ip)])[..|log|] == log;
    var c' := Recorded(c, ip);
    assert c' - {TOTAL} == (c - {TOTAL})[ip := Get(c - {TOTAL}, ip) + 1];
    SumIncrement(c - {TOTAL}, ip, 1);
  }

  lemma RecordKeepsOk(bs: Buckets, log: seq<Hit>, now: int, ip: string, minute: int)
    requires Ok(bs, log, now) && now <= minute && ip != TOTAL
    ensures Ok(RecordStep(bs, ip, minute), log + [Hit(minute, ip)], minute)
  {
    var bs', log' := RecordStep(bs, ip, minute), log + [Hit(minute, ip)];
    if minute !in bs { EmptyCounted(log, minute); }
    RecordedCounted(if minute in bs then bs[minute] else map[], log, minute, ip);
    forall m | m in bs' ensures Counted(bs'[m], log', m) {
      if m != minute { CountedOther(bs[m], log, m, Hit(minute, ip)); }
    }
    forall m | m !in bs' && m >= minute - MAX_AGE ensures Hits(log', m) == 0 {
      assert (log + [Hit(minute, ip)])[..|log|] == log;
      assert m !in bs;
    }
  }

  lemma PruneKeepsOk(bs: Buckets, log: seq<Hit>, now: int, later: int)
    requires Ok(bs, log, now) && now <= later
    ensures Ok(Prune(bs, later - MAX_AGE), log, later)
  {}

  // ---------------------------------------------------------------- whole lives of the collector

  /** Memory and file, with the requests each of them stands for, and the minutes of the latest step and of
      the latest flush. */
  datatype State = State(buckets: Buckets, file: Buckets, log: seq<Hit>, saved: seq<Hit>, clock: int, savedAt: int)

  /** Time passes before each step. */
  datatype Event = Recording(wait: nat, ip: string) | Flushing(wait: nat) | Restarting(wait: nat)

  function Step(s: State, e: Event): State {
    var now := s.clock + e.wait;
    match e
    case Recording(_, ip) =>
      if ip == TOTAL then s
      else s.(buckets := RecordStep(s.buckets, ip, now), log := s.log + [Hit(now, ip)], clock := now)
    case Flushing(_) =>
      var kept := Prune(s.buckets, now - MAX_AGE);
      State(kept, kept, s.log, s.log, now, now)
    case Restarting(_) => s.(buckets := Prune(s.file, now - MAX_AGE), log := s.saved, clock := now)
  }

  function Run(start: int, es: seq<Event>): State {
    if es == [] then State(map[], map[], [], [], start, start)
    else Step(Run(start, es[..|es| - 1]), es[|es| - 1])
  }

  ghost predicate StateOk(s: State) {
    Ok(s.buckets, s.log, s.clock) && Ok(s.file, s.saved, s.savedAt) && s.savedAt <= s.clock
  }

  lemma StepKeepsState(s: State, e: Event)
    requires StateOk(s)
    ensures StateOk(Step(s, e))
  {
    hide Ok, RecordStep;
    var now := s.clock + e.wait;
    match e
    case Recording(_, ip) => if ip != TOTAL { RecordKeepsOk(s.buckets, s.log, s.clock, ip, now); }
    case Flushing(_) => PruneKeepsOk(s.buckets, s.log, s.clock, now);
    case Restarting(_) => PruneKeepsOk(s.file, s.saved, s.savedAt, now);
  }

  lemma {:induction false} RunKeepsState(start: int, es: seq<Event>)
    ensures StateOk(Run(start, es))
  {
    hide Ok;
    if es == [] {
      NothingRecorded(start);
    } else {
      RunKeepsState(start, es[..|es| - 1]);
      StepKeepsState(Run(start, es[..|es| - 1]), es[|es| - 1]);
    }
  }

  lemma NothingRecorded(now: int)
    ensures Ok(map[], [], now)
  {}

  /** Conservation.  After any sequence of requests, flushes and restarts, a minute's total is the number of
      its requests and the sum of its clients' counts, each client's count is the number of its requests, and
      no minute of the last two days with a request has been dropped. */
  lemma TotalsAreSums(start: int, es: seq<Event>, m: int, ip: string)
    ensures var s := Run(start, es);
            (m in s.buckets ==>
               Get(s.buckets[m], TOTAL) == SumOf(s.buckets[m] - {TOTAL}) == Hits(s.log, m)
               && (ip != TOTAL ==> Get(s.buckets[m], ip) == HitsBy(s.log, m, ip)))
            && (s.clock - 2890 <= m && m !in s.buckets ==> Hits(s.log, m) == 0)
  {
    hide Run, Hits, HitsBy, SumOf;
    RunKeepsState(start, es);
  }

  /** No bucket is from the future, and none is left that was too old when the newest one came. */
  ghost predicate Recent(bs: Buckets, now: int) {
    forall m :: m in bs ==> m <= now && forall later :: later in bs ==> later - m <= 2890
  }

  lemma StepKeepsRecent(s: State, e: Event)
    requires Recent(s.buckets, s.clock) && Recent(s.file, s.savedAt) && s.savedAt <= s.clock
    ensures var s' := Step(s, e); Recent(s'.buckets, s'.clock) && Recent(s'.file, s'.savedAt)
  {}

  /** Memory stays small.  Whatever happens, no two minutes kept lie more than 2890 apart, so there are never
      more than that and one; and a flush or a restart leaves none older. */
  lemma {:induction false} OldMinutesGo(start: int, es: seq<Event>, m: int)
    ensures var s := Run(start, es);
            Recent(s.buckets, s.clock) && Recent(s.file, s.savedAt) && s.savedAt <= s.clock
            && (es != [] && !es[|es| - 1].Recording? && m in s.buckets ==> s.clock - 2890 <= m)
  {
    hide Recent, RecordStep;
    if es == [] {
      assert Recent(map[], start) by { NothingIsOld(start); }
    } else {
      OldMinutesGo(start, es[..|es| - 1], m);
      StepKeepsRecent(Run(start, es[..|es| - 1]), es[|es| - 1]);
    }
  }

  lemma NothingIsOld(now: int)
    ensures Recent(map[], now)
  {}

  lemma MinuteIs(seconds: int)
    ensures 60 * Minute(seconds) <= seconds < 60 * Minute(seconds) + 60
  {}

  // ---------------------------------------------------------------- the window

  datatype IpStats = IpStats(series: seq<nat>, total: nat)

  type IpData = map<string, IpStats>

  function Zeros(n: nat): seq<nat> { seq(n, _ => 0) }

  /** One minute's counts added to the per-client series. */
  function AddMinute(data: IpData, c: Counts, i: nat, n: nat): IpData {
    map ip | ip in data.Keys + (c.Keys - {TOTAL}) :: AddedIp(data, c, ip, i, n)
  }

  function AddedIp(data: IpData, c: Counts, ip: string, i: nat, n: nat): IpStats {
    var d := if ip in data then data[ip] else IpStats(Zeros(n), 0);
    if ip in c && ip != TOTAL && i < |d.series| then IpStats(d.series[i := c[ip]], d.total + c[ip]) else d
  }

  function At(data: IpData, ip: string, j: nat): nat {
    if ip in data && j < |data[ip].series| then data[ip].series[j] else 0
  }

  /** The first i minutes of every client's series are in, the rest are zero. */
  ghost predicate SeriesOk(data: IpData, log: seq<Hit>, lo: int, i: nat, n: nat) {
    (forall ip :: ip in data ==> ip != TOTAL && |data[ip].series| == n)
    && (forall ip, j: nat :: ip != TOTAL && j < n ==> At(data, ip, j) == if j < i then HitsBy(log, lo + j, ip) else 0)
  }

  lemma AddMinuteKeepsSeries(data: IpData, c: Counts, log: seq<Hit>, lo: int, i: nat, n: nat)
    requires SeriesOk(data, log, lo, i, n) && i < n && Counted(c, log, lo + i)
    ensures SeriesOk(AddMinute(data, c, i, n), log, lo, i + 1, n)
  {
    CountedPerIp(c, log, lo + i);
    hide Counted, HitsBy;
    var data' := AddMinute(data, c, i, n);
    forall ip, j: nat | ip != TOTAL && j < n
      ensures At(data', ip, j) == if j < i + 1 then HitsBy(log, lo + j, ip) else 0
    {
      assert At(data, ip, j) == if j < i then HitsBy(log, lo + j, ip) else 0;
      assert Get(c, ip) == HitsBy(log, lo + i, ip);
      assert At(data', ip, j) == if j == i && ip in c then c[ip] else At(data, ip, j);
    }
  }

  lemma CountedPerIp(c: Counts, log: seq<Hit>, m: int)
    requires Counted(c, log, m)
    ensures forall ip :: ip != TOTAL ==> Get(c, ip) == HitsBy(log, m, ip)
  {}

  function Totals(data: IpData): Counts {
    map ip | ip in data :: data[ip].total
  }

  datatype Snapshot = Snapshot(totalSeries: seq<nat>, ips: IpData)

  // ---------------------------------------------------------------- the busiest clients

  const SHOWN := 5

  datatype Entry = Entry(ip: string, stats: IpStats)

  predicate Descending(s: seq<Entry>) {
    forall i, j :: 0 <= i < j < |s| ==> s[i].stats.total >= s[j].stats.total
  }

  predicate DistinctIps(s: seq<Entry>) { forall i, j :: 0 <= i < j < |s| ==> s[i].ip != s[j].ip }

  ghost predicate Has(s: seq<Entry>, ip: string) { exists i :: 0 <= i < |s| && s[i].ip == ip }

  /** Five clients, or all if there are fewer, busiest first; nobody left out is busier than anybody shown. */
  ghost predicate IsTop(top: seq<Entry>, data: IpData) {
    Descending(top) && DistinctIps(top) && |top| == (if |data| <= 5 then |data| else 5)
    && (forall i :: 0 <= i < |top| ==> top[i].ip in data && top[i].stats == data[top[i].ip])
    && forall ip, i :: ip in data && !Has(top, ip) && 0 <= i < |top| ==> data[ip].total <= top[i].stats.total
  }

  predicate Taken(s: seq<Entry>, data: IpData, done: set<string>) {
    done <= data.Keys && forall i :: 0 <= i < |s| ==> s[i].ip in done && s[i].stats == data[s[i].ip]
  }

  /** Clients in order of their totals. */
  ghost predicate Ranked(s: seq<Entry>, data: IpData, done: set<string>) {
    Descending(s) && DistinctIps(s) && |s| == |done| && Taken(s, data, done)
    && forall ip :: ip in done ==> Has(s, ip)
  }

  /** One more client in its place. */
  method Ranking(s: seq<Entry>, e: Entry, ghost data: IpData, ghost done: set<string>) returns (r: seq<Entry>)
    requires Ranked(s, data, done) && e.ip in data && e.stats == data[e.ip] && e.ip !in done
    ensures Ranked(r, data, done + {e.ip})
  {
    hide Ranked;
    var k := 0;
    while k < |s| && s[k].stats.total >= e.stats.total
      invariant 0 <= k <= |s| && forall i :: 0 <= i < k ==> s[i].stats.total >= e.stats.total
    {
      k := k + 1;
    }
    r := Placed(s, k, e);
    PlacedIsRanked(s, k, e, data, done);
  }

  lemma PlacedIsRanked(s: seq<Entry>, k: nat, e: Entry, data: IpData, done: set<string>)
    requires Ranked(s, data, done) && e.ip in data && e.stats == data[e.ip] && e.ip !in done && k <= |s|
    requires forall i :: 0 <= i < k ==> s[i].stats.total >= e.stats.total
    requires k < |s| ==> s[k].stats.total < e.stats.total
    ensures Ranked(Placed(s, k, e), data, done + {e.ip})
  {
    PlacedDescends(s, k, e);
    PlacedDistinct(s, k, e);
    PlacedTaken(s, k, e, data, done);
    hide Descending, DistinctIps, Has, Taken;
    var r := Placed(s, k, e);
    forall ip | ip in done + {e.ip} ensures Has(r, ip) { PlacedHas(s, k, e, ip); }
  }

  function Placed(s: seq<Entry>, k: nat, e: Entry): (r: seq<Entry>)
    requires k <= |s|
    ensures |r| == |s| + 1
    ensures forall i :: 0 <= i < |r| ==> r[i] == if i < k then s[i] else if i == k then e else s[i - 1]
  {
    s[..k] + [e] + s[k..]
  }

  lemma PlacedDescends(s: seq<Entry>, k: nat, e: Entry)
    requires Descending(s) && k <= |s|
    requires forall i :: 0 <= i < k ==> s[i].stats.total >= e.stats.total
    requires k < |s| ==> s[k].stats.total < e.stats.total
    ensures Descending(Placed(s, k, e))
  {}

  lemma PlacedDistinct(s: seq<Entry>, k: nat, e: Entry)
    requires DistinctIps(s) && k <= |s| && forall i :: 0 <= i < |s| ==> s[i].ip != e.ip
    ensures DistinctIps(Placed(s, k, e))
  {}

  lemma PlacedTaken(s: seq<Entry>, k: nat, e: Entry, data: IpData, done: set<string>)
    requires Taken(s, data, done) && k <= |s| && e.ip in data && e.stats == data[e.ip]
    ensures Taken(Placed(s, k, e), data, done + {e.ip})
  {}

  lemma PlacedHas(s: seq<Entry>, k: nat, e: Entry, ip: string)
    requires k <= |s| && (ip == e.ip || Has(s, ip))
    ensures Has(Placed(s, k, e), ip)
  {
    var r := Placed(s, k, e);
    if ip == e.ip {
      assert r[k] == e;
    } else {
      var i :| 0 <= i < |s| && s[i].ip == ip;
      assert r[if i < k then i else i + 1] == s[i];
    }
  }

  /** The sort and the cut. */
  method TopClients(data: IpData) returns (top: seq<Entry>)
    ensures IsTop(top, data)
  {
    hide Ranked;
    var all: seq<Entry> := [];
    var todo := data.Keys;
    assert Ranked(all, data, {}) by { NobodyRanked(data); }
    assert data.Keys - todo == {};
    while todo != {}
      invariant todo <= data.Keys && Ranked(all, data, data.Keys - todo)
    {
      HasMember(todo);
      var ip :| ip in todo;
      all := Ranking(all, Entry(ip, data[ip]), data, data.Keys - todo);
      assert data.Keys - (todo - {ip}) == data.Keys - todo + {ip};
      todo := todo - {ip};
    }
    assert data.Keys - todo == data.Keys;
    top := if |all| > SHOWN then all[..SHOWN] else all;
    CutIsTop(all, top, data);
  }

  lemma NobodyRanked(data: IpData)
    ensures Ranked([], data, {})
  {}

  lemma CutIsTop(all: seq<Entry>, top: seq<Entry>, data: IpData)
    requires Ranked(all, data, data.Keys) && top == if |all| > SHOWN then all[..SHOWN] else all
    ensures IsTop(top, data)
  {
    assert |data| == |data.Keys|;
    assert Descending(top) && DistinctIps(top) && forall i :: 0 <= i < |top| ==> top[i] == all[i];
    forall ip, i | ip in data && !Has(top, ip) && 0 <= i < |top| ensures data[ip].total <= top[i].stats.total {
      CutOffIsLess(all, top, data, ip, i);
    }
    hide Descending, DistinctIps, Has;
  }

  lemma CutOffIsLess(all: seq<Entry>, top: seq<Entry>, data: IpData, ip: string, i: nat)
    requires Descending(all) && Taken(all, data, data.Keys) && Has(all, ip) && !Has(top, ip)
    requires |top| <= |all| && i < |top| && forall k :: 0 <= k < |top| ==> top[k] == all[k]
    ensures ip in data && data[ip].total <= top[i].stats.total
  {
    var j :| 0 <= j < |all| && all[j].ip == ip;
    assert forall k :: 0 <= k < |top| ==> top[k].ip != ip;
  }

  // ---------------------------------------------------------------- the collector

  /** The pruning loop. */
  method Pruned(bs: Buckets, cutoff: int) returns (kept: Buckets)
    ensures kept == Prune(bs, cutoff)
  {
    kept := map[];
    var pending := bs.Keys;
    while pending != {}
      invariant pending <= bs.Keys
      invariant kept == Prune(bs - pending, cutoff)
    {
      HasMinute(pending);
      var m :| m in pending;
      if m >= cutoff { kept := kept[m := bs[m]]; }
      pending := pending - {m};
    }
    assert bs - pending == bs;
  }

  /** The body of record: a new minute first drops the old ones. */
  method RecordedIn(bs: Buckets, ip: string, now: int) returns (r: Buckets)
    ensures r == RecordStep(bs, ip, Minute(now))
  {
    r := bs;
    var min := now / 60;
    if min !in r {
      r := r[min := map[]];
      assert (now - MAX_AGE * 60) / 60 == min - MAX_AGE;
      r := Pruned(r, (now - MAX_AGE * 60) / 60);
    }
    var c := r[min];
    c := c[ip := Get(c, ip) + 1];
    c := c[TOTAL := Get(c, TOTAL) + 1];
    r := r[min := c];
  }

  class Collector {
    var buckets: Buckets
    var file: Buckets
    /** The requests recorded so far, those covered by the file, and the minute of the latest step. */
    ghost var log: seq<Hit>
    ghost var saved: seq<Hit>
    ghost var clock: int
    ghost var savedAt: int

    ghost function View(): State
      reads this
    {
      State(buckets, file, log, saved, clock, savedAt)
    }

    ghost predicate Valid()
      reads this
    {
      StateOk(View())
    }

    constructor ()
      ensures Valid() && log == []
    {
      buckets, file := map[], map[];
      log, saved, clock, savedAt := [], [], 0, 0;
    }

    method Record(ip: string, now: int)
      requires Valid() && ip != TOTAL && clock <= Minute(now)
      modifies this
      ensures Valid() && log == old(log) + [Hit(Minute(now), ip)] && clock == Minute(now)
      ensures View() == Step(old(View()), Recording(Minute(now) - old(clock), ip))
    {
      hide Ok;
      RecordKeepsOk(buckets, log, clock, ip, Minute(now));
      buckets := RecordedIn(buckets, ip, now);
      log, clock := log + [Hit(Minute(now), ip)], Minute(now);
    }

    /** flushToDisk: prune, then write. */
    method Flush(now: int)
      requires Valid() && clock <= Minute(now)
      modifies this
      ensures Valid() && log == old(log) && clock == Minute(now)
      ensures View() == Step(old(View()), Flushing(Minute(now) - old(clock)))
    {
      hide Ok, Prune;
      PruneKeepsOk(buckets, log, clock, Minute(now));
      assert (now - MAX_AGE * 60) / 60 == Minute(now) - MAX_AGE;
      buckets := Pruned(buckets, (now - MAX_AGE * 60) / 60);
      file := buckets;
      clock, savedAt, saved := Minute(now), Minute(now), log;
    }

    /** loadFromDisk at a restart: what was not flushed is forgotten. */
    method Restart(now: int)
      requires Valid() && clock <= Minute(now)
      modifies this
      ensures Valid() && log == old(saved) && clock == Minute(now)
      ensures View() == Step(old(View()), Restarting(Minute(now) - old(clock)))
    {
      hide Ok, Prune;
      PruneKeepsOk(file, saved, savedAt, Minute(now));
      assert (now - MAX_AGE * 60) / 60 == Minute(now) - MAX_AGE;
      buckets := Pruned(file, (now - MAX_AGE * 60) / 60);
      log, clock := saved, Minute(now);
    }

    /** snapshot: the time line, the per-client aggregation, and the busiest clients. */
    method TakeSnapshot(window: nat, now: int) returns (r: Snapshot, top: seq<Entry>)
      requires Valid() && clock <= Minute(now) && window <= 2880
      ensures var lo := Minute(now) - window;
              |r.totalSeries| == window + 1
              && (forall i :: 0 <= i <= window ==> r.totalSeries[i] == Hits(log, lo + i))
              && SeriesOk(r.ips, log, lo, window + 1, window + 1)
              && Sum(r.totalSeries) == HitsIn(log, lo, window + 1) == SumOf(Totals(r.ips))
      ensures IsTop(top, r.ips)
    {
      hide SeriesOk, Counted, AddMinute, Totals, SumOf, Hits, HitsIn, Sum;
      var lo := (now - window * 60) / 60;
      assert lo == Minute(now) - window;
      var series := TimeLine(lo, window + 1);
      WindowSum(log, lo, series);
      var data: IpData := map[];
      NoData(log, lo, window + 1);
      var i := 0;
      while i < window + 1
        invariant 0 <= i <= window + 1
        invariant SeriesOk(data, log, lo, i, window + 1)
        invariant SumOf(Totals(data)) == Sum(series[..i])
      {
        if lo + i in buckets {
          data := MinuteInto(data, buckets[lo + i], i, window + 1, log, lo);
        } else {
          EmptyCounted(log, lo + i);
          data := MinuteInto(data, map[], i, window + 1, log, lo);
        }
        SumStep(series, i);
        i := i + 1;
      }
      assert series[..i] == series;
      r := Snapshot(series, data);
      top := TopClients(data);
    }

    method TimeLine(lo: int, n: nat) returns (series: seq<nat>)
      requires Valid() && lo >= clock - MAX_AGE
      ensures |series| == n && forall i :: 0 <= i < n ==> series[i] == Hits(log, lo + i)
    {
      series := [];
      var t := lo;
      while t < lo + n
        invariant lo <= t <= lo + n && |series| == t - lo
        invariant forall i :: 0 <= i < |series| ==> series[i] == Hits(log, lo + i)
      {
        if t in buckets {
          series := series + [Get(buckets[t], TOTAL)];
        } else {
          series := series + [0];
        }
        t := t + 1;
      }
    }
  }

  lemma SumStep(s: seq<nat>, i: nat)
    requires i < |s|
    ensures Sum(s[..i + 1]) == Sum(s[..i]) + s[i]
  {
    assert s[..i + 1][..i] == s[..i];
  }

  lemma NoData(log: seq<Hit>, lo: int, n: nat)
    ensures SeriesOk(map[], log, lo, 0, n) && SumOf(Totals(map[])) == Sum([])
  {}

  lemma EmptySum(c: Counts)
    requires c == map[]
    ensures SumOf(c) == 0
  {}

  lemma SameMinute(data: IpData, a: Counts, b: Counts, i: nat, n: nat)
    requires a - {TOTAL} == b - {TOTAL}
    ensures AddMinute(data, a, i, n) == AddMinute(data, b, i, n)
  {
    assert a.Keys - {TOTAL} == (a - {TOTAL}).Keys && b.Keys - {TOTAL} == (b - {TOTAL}).Keys;
    forall ip | ip != TOTAL
      ensures ip in a <==> ip in b
      ensures ip in a ==> a[ip] == b[ip]
    {
      assert ip in a <==> ip in a - {TOTAL};
      assert ip in b <==> ip in b - {TOTAL};
      if ip in a { assert (a - {TOTAL})[ip] == (b - {TOTAL})[ip]; }
    }
  }

  /** The series after one more client of the minute. */
  function WithIp(d: IpData, ip: string, count: nat, i: nat, n: nat): IpData {
    var prev := if ip in d then d[ip] else IpStats(Zeros(n), 0);
    if i < |prev.series| then d[ip := IpStats(prev.series[i := count], prev.total + count)] else d
  }

  lemma AddOne(data: IpData, d: IpData, c: Counts, pending: set<string>, ip: string, i: nat, n: nat)
    requires i < n && ip in pending && pending <= c.Keys && ip != TOTAL
    requires forall k :: k in data ==> |data[k].series| == n
    requires d == AddMinute(data, c - pending, i, n)
    ensures WithIp(d, ip, c[ip], i, n) == AddMinute(data, c - (pending - {ip}), i, n)
  {
    var before, after := c - pending, c - (pending - {ip});
    assert ip !in before && after == before[ip := c[ip]];
    AddOneMore(data, before, ip, c[ip], i, n);
  }

  lemma AddOneMore(data: IpData, c: Counts, ip: string, count: nat, i: nat, n: nat)
    requires i < n && ip !in c && ip != TOTAL && forall k :: k in data ==> |data[k].series| == n
    ensures WithIp(AddMinute(data, c, i, n), ip, count, i, n) == AddMinute(data, c[ip := count], i, n)
  {
    var d, d' := WithIp(AddMinute(data, c, i, n), ip, count, i, n), AddMinute(data, c[ip := count], i, n);
    forall k
      ensures k in d <==> k in d'
      ensures k in d ==> d[k] == d'[k]
    {
      AddOneMoreAt(data, c, ip, count, i, n, k);
    }
    hide WithIp, AddMinute;
    assert d.Keys == d'.Keys;
  }

  lemma AddOneMoreAt(data: IpData, c: Counts, ip: string, count: nat, i: nat, n: nat, k: string)
    requires i < n && ip !in c && ip != TOTAL && forall x :: x in data ==> |data[x].series| == n
    ensures var d, d' := WithIp(AddMinute(data, c, i, n), ip, count, i, n), AddMinute(data, c[ip := count], i, n);
            (k in d <==> k in d') && (k in d ==> d[k] == d'[k])
  {}

  lemma AddOneSums(d: IpData, c: Counts, pending: set<string>, ip: string, i: nat, n: nat)
    requires i < n && ip in pending && pending <= c.Keys && ip != TOTAL
    requires ip in d ==> |d[ip].series| == n
    ensures SumOf(Totals(WithIp(d, ip, c[ip], i, n))) == SumOf(Totals(d)) + c[ip]
    ensures SumOf(c - (pending - {ip}) - {TOTAL}) == SumOf(c - pending - {TOTAL}) + c[ip]
  {
    hide SumOf;
    var d' := WithIp(d, ip, c[ip], i, n);
    assert Totals(d') == Totals(d)[ip := Get(Totals(d), ip) + c[ip]];
    SumIncrement(Totals(d), ip, c[ip]);
    var before := c - pending - {TOTAL};
    assert c - (pending - {ip}) - {TOTAL} == before[ip := Get(before, ip) + c[ip]];
    SumIncrement(before, ip, c[ip]);
  }

  /** One pass over a minute's clients, extending or starting their series. */
  method MinuteInto(data: IpData, c: Counts, i: nat, n: nat, ghost log: seq<Hit>, ghost lo: int) returns (d: IpData)
    requires i < n && SeriesOk(data, log, lo, i, n) && Counted(c, log, lo + i)
    ensures SeriesOk(d, log, lo, i + 1, n)
    ensures SumOf(Totals(d)) == SumOf(Totals(data)) + Hits(log, lo + i)
  {
    hide HitsBy, Hits, SumOf;
    d := data;
    var pending := c.Keys;
    assert AddMinute(data, c - pending, i, n) == data;
    EmptySum(c - pending - {TOTAL});
    while pending != {}
      invariant pending <= c.Keys
      invariant d == AddMinute(data, c - pending, i, n)
      invariant SumOf(Totals(d)) == SumOf(Totals(data)) + SumOf(c - pending - {TOTAL})
    {
      var ip :| ip in pending;
      if ip != TOTAL {
        AddOne(data, d, c, pending, ip, i, n);
        AddOneSums(d, c, pending, ip, i, n);
        d := WithIp(d, ip, c[ip], i, n);
      } else {
        assert c - (pending - {ip}) - {TOTAL} == c - pending - {TOTAL};
        SameMinute(data, c - (pending - {ip}), c - pending, i, n);
      }
      pending := pending - {ip};
    }
    assert c - pending == c;
    AddMinuteKeepsSeries(data, c, log, lo, i, n);
  }

  lemma HasMinute(s: set<int>)
    requires s != {}
    ensures exists m :: m in s
  {
    assert (forall m: int :: m !in s) ==> s == {};
  }
}
