/** The incremental inventory (internal/inventory/aggregate.go, summary.go) against a plain group-by over the log. */
module Inventory {
  import opened Bytes

  const MAX_AGGREGATES := 20000
  const MAX_TRACKED := 256

  datatype Finding = Finding(id: string, severity: string, detail: string)

  /** One handshake, named and judged. Addresses appear as their text. */
  datatype Record = Record(
    firstSeen: int, lastSeen: int, transport: string,
    clientIP: string, serverIP: string, serverPort: u16, serverName: string,
    ech: bool, echConfig: byte,
    version: string, cipher: string, group: string, alpn: string, ja4: string, pq: string,
    findings: seq<Finding>, serverObserved: bool)

  /** What makes two handshakes the same finding. */
  datatype Key = Key(
    transport: string, name: string, port: u16, version: string, cipher: string, group: string, alpn: string,
    pq: string, ech: bool)

  function KeyOf(r: Record): Key {
    Key(r.transport, if r.serverName == "" then r.serverIP else r.serverName, r.serverPort,
        r.version, r.cipher, r.group, r.alpn, r.pq, r.ech)
  }

  /** The name a server is reported under: the one the client asked for, or else its address. */
  function NameOf(r: Record): string {
    if |r.serverName| > 0 then r.serverName else r.serverIP
  }

  /** Two handshakes are the same finding: everything a row displays about them agrees. */
  predicate SameFinding(r: Record, q: Record) {
    && r.transport == q.transport && NameOf(r) == NameOf(q) && r.serverPort == q.serverPort
    && r.version == q.version && r.cipher == q.cipher && r.group == q.group && r.alpn == q.alpn
    && r.pq == q.pq && r.ech == q.ech
  }

  /** Handshakes share a key exactly when they are the same finding; client, fingerprint and times play no part. */
  lemma SameKeyIff(r: Record, q: Record)
    ensures KeyOf(r) == KeyOf(q) <==> SameFinding(r, q)
  {
  }

  // ---------------------------------------------------------------- severities

  /** Unknown severities, the empty one included, rank with "info". */
  function Rank(severity: string): nat {
    if severity == "critical" then 4
    else if severity == "high" then 3
    else if severity == "medium" then 2
    else if severity == "low" then 1
    else 0
  }

  /** The five severities in their order; anything else counts as the lowest. */
  lemma RankOrder(other: string)
    ensures Rank("critical") > Rank("high") > Rank("medium") > Rank("low") > Rank("info") == 0
    ensures other !in ["critical", "high", "medium", "low"] ==> Rank(other) == 0
  {
    assert |"critical"| == 8 && |"high"| == 4 && |"medium"| == 6 && |"low"| == 3;
    assert "high"[0] == 'h' && "info"[0] == 'i';
    var four := ["critical", "high", "medium", "low"];
    assert four[0] in four && four[1] in four && four[2] in four && four[3] in four;
  }

  /** The first severity of the highest rank, "info" when there is nothing above it. */
  function Worst(findings: seq<Finding>): string {
    if findings == [] then "info"
    else
      var before := Worst(findings[..|findings| - 1]);
      var last := findings[|findings| - 1].severity;
      if Rank(last) > Rank(before) then last else before
  }

  method MaxSeverity(r: Record) returns (worst: string)
    ensures worst == Worst(r.findings)
    ensures forall i :: 0 <= i < |r.findings| ==> Rank(r.findings[i].severity) <= Rank(worst)
    ensures Rank(worst) > 0 ==> exists i :: 0 <= i < |r.findings| && r.findings[i].severity == worst
    ensures Rank(worst) == 0 ==> worst == "info"
  {
    hide Rank;
    worst := "info";
    for i := 0 to |r.findings|
      invariant worst == Worst(r.findings[..i])
      invariant forall j :: 0 <= j < i ==> Rank(r.findings[j].severity) <= Rank(worst)
      invariant worst == "info" || (Rank(worst) > 0 && exists j :: 0 <= j < i && r.findings[j].severity == worst)
    {
      assert r.findings[..i + 1][..i] == r.findings[..i];
      if Rank(r.findings[i].severity) > Rank(worst) {
        worst := r.findings[i].severity;
      }
    }
    assert r.findings[..|r.findings|] == r.findings;
    InfoIsLowest();
  }

  /** What the loop establishes, of the function. */
  lemma {:induction false} WorstBounds(findings: seq<Finding>)
    ensures forall j :: 0 <= j < |findings| ==> Rank(findings[j].severity) <= Rank(Worst(findings))
    ensures Rank(Worst(findings)) > 0 ==> exists j :: 0 <= j < |findings| && findings[j].severity == Worst(findings)
  {
    InfoIsLowest();
    hide Rank;
    if findings != [] {
      var before := findings[..|findings| - 1];
      WorstBounds(before);
      if Rank(Worst(findings)) > 0 && Worst(findings) == Worst(before) {
        var j :| 0 <= j < |before| && before[j].severity == Worst(before);
        assert findings[j].severity == Worst(findings);
      }
    }
  }

  lemma InfoIsLowest()
    ensures Rank("info") == 0
  {
    assert "info"[0] == 'i';
  }

  // ---------------------------------------------------------------- one aggregate

  /** An `aggEntry`: the row under construction and the sets behind its counts. */
  datatype Entry = Entry(
    first: Record, count: nat, firstSeen: int, lastSeen: int, severity: string,
    clients: set<string>, clientsCapped: bool,
    findings: set<string>, ja4s: set<string>, echConfigs: set<byte>)

  function NewEntry(r: Record): Entry {
    Entry(r, 0, r.firstSeen, r.lastSeen, "", {}, false, {}, {}, {})
  }

  function FindingIds(r: Record): set<string> {
    set i | 0 <= i < |r.findings| :: r.findings[i].id
  }

  function Merge(e: Entry, r: Record): Entry {
    Entry(
      e.first, e.count + 1,
      if r.firstSeen < e.firstSeen then r.firstSeen else e.firstSeen,
      if r.lastSeen > e.lastSeen then r.lastSeen else e.lastSeen,
      if Rank(Worst(r.findings)) > Rank(e.severity) then Worst(r.findings) else e.severity,
      Track(e.clients, r.clientIP),
      e.clientsCapped || Overflows(e.clients, r.clientIP),
      e.findings + FindingIds(r),
      if r.ja4 != "" then Track(e.ja4s, r.ja4) else e.ja4s,
      if r.ech then Track(e.echConfigs, r.echConfig) else e.echConfigs)
  }

  /** A bounded set takes a new element only below the cap. */
  function Track<T>(s: set<T>, x: T): set<T> {
    if |s| < MAX_TRACKED then s + {x} else s
  }

  /** An element that is neither held nor admitted. */
  predicate Overflows<T(==)>(s: set<T>, x: T) {
    |s| >= MAX_TRACKED && x !in s
  }

  /** The finding IDs of a record, added one at a time. */
  method CollectIds(ids: set<string>, r: Record) returns (out: set<string>)
    ensures out == ids + FindingIds(r)
  {
    out := ids;
    for i := 0 to |r.findings|
      invariant out == ids + set j | 0 <= j < i :: r.findings[j].id
    {
      out := out + {r.findings[i].id};
    }
  }

  /** The statements of `addAggregate` about the time range and the worst severity. */
  method MergeScalars(entry: Entry, r: Record) returns (e: Entry)
    ensures e == entry.(count := entry.count + 1, firstSeen := Merge(entry, r).firstSeen,
                        lastSeen := Merge(entry, r).lastSeen, severity := Merge(entry, r).severity)
  {
    hide FindingIds, Worst, Rank, Track, Overflows;
    e := entry.(count := entry.count + 1);
    if r.firstSeen < e.firstSeen {
      e := e.(firstSeen := r.firstSeen);
    }
    if r.lastSeen > e.lastSeen {
      e := e.(lastSeen := r.lastSeen);
    }
    var sev := MaxSeverity(r);
    if Rank(sev) > Rank(e.severity) {
      e := e.(severity := sev);
    }
  }

  /** The statements of `addAggregate` that update an entry. */
  method MergeRecord(entry: Entry, r: Record) returns (e: Entry)
    ensures e == Merge(entry, r)
  {
    hide FindingIds, Worst, Rank, Track, Overflows;
    e := MergeScalars(entry, r);
    if Overflows(e.clients, r.clientIP) {
      e := e.(clientsCapped := true);
    }
    e := e.(clients := Track(e.clients, r.clientIP));
    if r.ech {
      e := e.(echConfigs := Track(e.echConfigs, r.echConfig));
    }
    if r.ja4 != "" {
      e := e.(ja4s := Track(e.ja4s, r.ja4));
    }
    var ids := CollectIds(e.findings, r);
    e := e.(findings := ids);
  }

  /** The ECH inference `Aggregates` draws: more than one config id over more than one connection. */
  predicate LikelyGrease(e: Entry) {
    e.first.ech && e.count > 1 && |e.echConfigs| > 1
  }

  // ---------------------------------------------------------------- the accumulator

  datatype Totals = Totals(flows: nat, aggs: map<Key, Entry>, dropped: nat)

  const NOTHING := Totals(0, map[], 0)

  function Add(a: Totals, r: Record): Totals {
    var k := KeyOf(r);
    if k in a.aggs then Totals(a.flows + 1, a.aggs[k := Merge(a.aggs[k], r)], a.dropped)
    else if |a.aggs| >= MAX_AGGREGATES then Totals(a.flows + 1, a.aggs, a.dropped + 1)
    else Totals(a.flows + 1, a.aggs[k := Merge(NewEntry(r), r)], a.dropped)
  }

  function AddAll(log: seq<Record>): Totals {
    if log == [] then NOTHING else Add(AddAll(log[..|log| - 1]), log[|log| - 1])
  }

  /** `Accumulator`, as far as aggregates go: the fields are updated by every `Add`. */
  class Accumulator {
    var flows: nat
    var aggs: map<Key, Entry>
    var aggDropped: nat

    constructor ()
      ensures Value() == NOTHING
    {
      flows, aggs, aggDropped := 0, map[], 0;
    }

    function Value(): Totals
      reads this
    {
      Totals(flows, aggs, aggDropped)
    }

    method AddAggregate(r: Record)
      modifies this
      ensures Value() == Add(old(Value()), r).(flows := old(flows))
    {
      hide Merge;
      var k := KeyOf(r);
      if k !in aggs {
        if |aggs| >= MAX_AGGREGATES {
          aggDropped := aggDropped + 1;
          return;
        }
        aggs := aggs[k := NewEntry(r)];
      }
      var e := MergeRecord(aggs[k], r);
      aggs := aggs[k := e];
    }

    method AddRecord(r: Record)
      modifies this
      ensures Value() == Add(old(Value()), r)
    {
      hide Merge;
      flows := flows + 1;
      AddAggregate(r);
    }
  }

  // ---------------------------------------------------------------- the log, said without the accumulator

  /** The records of one key, in order. */
  function Of(log: seq<Record>, k: Key): seq<Record> {
    if log == [] then []
    else
      var before := Of(log[..|log| - 1], k);
      if KeyOf(log[|log| - 1]) == k then before + [log[|log| - 1]] else before
  }

  /** The distinct keys, in order of first arrival. */
  function Arrivals(log: seq<Record>): seq<Key> {
    if log == [] then []
    else
      var before := Arrivals(log[..|log| - 1]);
      var k := KeyOf(log[|log| - 1]);
      if k in before then before else before + [k]
  }

  function Clients(rs: seq<Record>): set<string> {
    set i | 0 <= i < |rs| :: rs[i].clientIP
  }

  function ConfigIds(rs: seq<Record>): set<byte> {
    set i | 0 <= i < |rs| && rs[i].ech :: rs[i].echConfig
  }

  function Fingerprints(rs: seq<Record>): set<string> {
    set i | 0 <= i < |rs| && rs[i].ja4 != "" :: rs[i].ja4
  }

  function AllFindings(rs: seq<Record>): set<string> {
    set i, j | 0 <= i < |rs| && 0 <= j < |rs[i].findings| :: rs[i].findings[j].id
  }

  /** `tracked` is a sample of `all`: everything up to the cap, and exactly the cap beyond it. */
  ghost predicate Sample<T>(tracked: set<T>, all: set<T>) {
    tracked <= all && |tracked| == if |all| <= 256 then |all| else 256
  }

  /** `t` is the least of a nonempty list's first sightings. */
  ghost predicate Earliest(t: int, rs: seq<Record>) {
    (exists i :: 0 <= i < |rs| && rs[i].firstSeen == t) && forall i :: 0 <= i < |rs| ==> t <= rs[i].firstSeen
  }

  ghost predicate Latest(t: int, rs: seq<Record>) {
    (exists i :: 0 <= i < |rs| && rs[i].lastSeen == t) && forall i :: 0 <= i < |rs| ==> t >= rs[i].lastSeen
  }

  /** A finding somewhere in the list has this severity. */
  predicate Occurs(sev: string, rs: seq<Record>) {
    exists i, j :: 0 <= i < |rs| && 0 <= j < |rs[i].findings| && rs[i].findings[j].severity == sev
  }

  /** No finding in the list is worse, and this one is in it; a row with nothing above "info" has no severity at all. */
  ghost predicate WorstOf(sev: string, rs: seq<Record>) {
    && (forall i, j :: 0 <= i < |rs| && 0 <= j < |rs[i].findings| ==> Rank(rs[i].findings[j].severity) <= Rank(sev))
    && (if Rank(sev) == 0 then sev == "" else Occurs(sev, rs))
  }

  /** An entry is exactly the fold of these records, said field by field. */
  ghost predicate Describes(e: Entry, rs: seq<Record>) {
    && rs != [] && e.first == rs[0] && e.count == |rs|
    && Earliest(e.firstSeen, rs) && Latest(e.lastSeen, rs)
    && WorstOf(e.severity, rs)
    && e.findings == AllFindings(rs)
    && Sample(e.clients, Clients(rs)) && (e.clientsCapped <==> |Clients(rs)| > 256)
    && Sample(e.ja4s, Fingerprints(rs))
    && e.echConfigs == ConfigIds(rs)
  }

  // ---------------------------------------------------------------- one more record

  lemma SampleGrows<T>(tracked: set<T>, all: set<T>, x: T)
    requires Sample(tracked, all)
    ensures Sample(Track(tracked, x), all + {x})
    ensures |all + {x}| > MAX_TRACKED <==> |all| > MAX_TRACKED || Overflows(tracked, x)
  {
    if |tracked| < MAX_TRACKED {
      SubsetEqual(tracked, all);
    } else if x !in tracked {
      SubsetSize(tracked + {x}, all + {x});
    } else {
      assert all + {x} == all;
    }
  }

  lemma SubsetEqual<T>(a: set<T>, b: set<T>)
    requires a <= b && |a| == |b|
    ensures a == b
  {
    assert b == a + (b - a);
  }

  function AllBytes(n: nat): (s: set<byte>)
    requires n <= 256
    ensures |s| == n && forall b: byte :: b in s <==> b < n
  {
    if n == 0 then {} else AllBytes(n - 1) + {n - 1}
  }

  /** There are only 256 config ids, so their cap never bites. */
  lemma ConfigCapNeverBites(ids: set<byte>, x: byte)
    requires |ids| >= MAX_TRACKED
    ensures x in ids
  {
    if x !in ids {
      SubsetSize(ids + {x}, AllBytes(256));
    }
  }

  lemma SetsOfSnoc(rs: seq<Record>, r: Record)
    ensures Clients(rs + [r]) == Clients(rs) + {r.clientIP}
    ensures Fingerprints(rs + [r]) == if r.ja4 != "" then Fingerprints(rs) + {r.ja4} else Fingerprints(rs)
    ensures ConfigIds(rs + [r]) == if r.ech then ConfigIds(rs) + {r.echConfig} else ConfigIds(rs)
  {
    var all := rs + [r];
    assert all[|rs|] == r && forall i :: 0 <= i < |rs| ==> all[i] == rs[i];
  }

  lemma FindingsOfSnoc(rs: seq<Record>, r: Record)
    ensures AllFindings(rs + [r]) == AllFindings(rs) + FindingIds(r)
  {
    var all := rs + [r];
    assert all[|rs|] == r && forall i :: 0 <= i < |rs| ==> all[i] == rs[i];
  }

  lemma TimesOfSnoc(e: Entry, rs: seq<Record>, r: Record)
    requires Earliest(e.firstSeen, rs) && Latest(e.lastSeen, rs)
    ensures Earliest(Merge(e, r).firstSeen, rs + [r])
    ensures Latest(Merge(e, r).lastSeen, rs + [r])
  {
    hide Rank, Worst, Track, Overflows, FindingIds;
    var all := rs + [r];
    assert all[|rs|] == r && forall i :: 0 <= i < |rs| ==> all[i] == rs[i];
    var i :| 0 <= i < |rs| && rs[i].firstSeen == e.firstSeen;
    assert all[i].firstSeen == e.firstSeen;
    var j :| 0 <= j < |rs| && rs[j].lastSeen == e.lastSeen;
    assert all[j].lastSeen == e.lastSeen;
  }

  lemma WorstOfSnoc(sev: string, rs: seq<Record>, r: Record)
    requires WorstOf(sev, rs)
    ensures WorstOf(if Rank(Worst(r.findings)) > Rank(sev) then Worst(r.findings) else sev, rs + [r])
  {
    hide Rank, Worst;
    var all := rs + [r];
    assert all[|rs|] == r && forall i :: 0 <= i < |rs| ==> all[i] == rs[i];
    WorstBounds(r.findings);
    if Rank(Worst(r.findings)) > Rank(sev) {
      var k :| 0 <= k < |r.findings| && r.findings[k].severity == Worst(r.findings);
      assert all[|rs|].findings[k].severity == Worst(r.findings);
    } else if Rank(sev) > 0 {
      var l, k :| 0 <= l < |rs| && 0 <= k < |rs[l].findings| && rs[l].findings[k].severity == sev;
      assert all[l].findings[k].severity == sev;
    }
  }

  lemma TrackConfig(ids: set<byte>, x: byte)
    ensures Track(ids, x) == ids + {x}
  {
    if |ids| >= MAX_TRACKED {
      ConfigCapNeverBites(ids, x);
    }
  }

  lemma MergeDescribes(e: Entry, rs: seq<Record>, r: Record)
    requires Describes(e, rs)
    ensures Describes(Merge(e, r), rs + [r])
  {
    TimesOfSnoc(e, rs, r);
    WorstOfSnoc(e.severity, rs, r);
    FindingsOfSnoc(rs, r);
    SetsOfSnoc(rs, r);
    hide Rank, Worst, Earliest, Latest, WorstOf, AllFindings, FindingIds, Clients, Fingerprints, ConfigIds, Track,
      Overflows, Sample;
    SampleGrows(e.clients, Clients(rs), r.clientIP);
    SampleGrows(e.ja4s, Fingerprints(rs), r.ja4);
    TrackConfig(e.echConfigs, r.echConfig);
  }

  lemma TrackFirst<T>(x: T)
    ensures Track({}, x) == {x} && !Overflows({}, x) && Sample({x}, {x}) && Sample<T>({}, {}) && |{x}| == 1
  {
  }

  lemma OneRecordSets(r: Record)
    ensures Clients([r]) == {r.clientIP}
    ensures Fingerprints([r]) == if r.ja4 != "" then {r.ja4} else {}
    ensures ConfigIds([r]) == if r.ech then {r.echConfig} else {}
  {
    SetsOfSnoc([], r);
    assert [] + [r] == [r];
    assert Clients([]) == {} && Fingerprints([]) == {} && ConfigIds([]) == {};
    hide Clients, Fingerprints, ConfigIds;
  }

  lemma NewFindings(r: Record)
    ensures {} + FindingIds(r) == AllFindings([r])
  {
    assert [r][0] == r;
  }

  lemma NewExtremes(r: Record)
    ensures Earliest(r.firstSeen, [r]) && Latest(r.lastSeen, [r])
    ensures WorstOf(Merge(NewEntry(r), r).severity, [r])
  {
    assert Rank("") == 0;
    WorstBounds(r.findings);
    hide Rank, Worst;
    assert [r][0] == r;
    if Rank(Worst(r.findings)) > 0 {
      var k :| 0 <= k < |r.findings| && r.findings[k].severity == Worst(r.findings);
      assert [r][0].findings[k].severity == Worst(r.findings);
    }
  }

  lemma NewDescribes(r: Record)
    ensures Describes(Merge(NewEntry(r), r), [r])
  {
    OneRecordSets(r);
    NewFindings(r);
    NewExtremes(r);
    hide Rank, Worst, Earliest, Latest, WorstOf, AllFindings, FindingIds, Clients, Fingerprints, ConfigIds, Track,
      Overflows, Sample;
    TrackFirst(r.clientIP);
    TrackFirst(r.ja4);
    TrackFirst(r.echConfig);
  }

  // ---------------------------------------------------------------- every log

  /** The retained keys: the first 20000 distinct ones. */
  function Retained(log: seq<Record>): seq<Key> {
    Take(Arrivals(log), 20000)
  }

  ghost predicate NoRepeats(ks: seq<Key>) {
    forall i, j :: 0 <= i < j < |ks| ==> ks[i] != ks[j]
  }

  lemma {:induction false} ArrivalsDistinct(log: seq<Record>)
    ensures NoRepeats(Arrivals(log))
  {
    hide KeyOf;
    if log != [] {
      ArrivalsDistinct(log[..|log| - 1]);
    }
  }

  ghost function KeySet(ks: seq<Key>): set<Key> {
    set i | 0 <= i < |ks| :: ks[i]
  }

  lemma {:induction false} KeySetSize(ks: seq<Key>)
    requires NoRepeats(ks)
    ensures |KeySet(ks)| == |ks|
  {
    if ks == [] {
      assert KeySet(ks) == {};
    } else {
      var front, last := ks[..|ks| - 1], ks[|ks| - 1];
      KeySetSize(front);
      assert KeySet(ks) == KeySet(front) + {last};
      assert last !in KeySet(front);
    }
  }

  /** How many of the records have a retained key. */
  function Kept(log: seq<Record>, keys: set<Key>): nat {
    if log == [] then 0
    else Kept(log[..|log| - 1], keys) + (if KeyOf(log[|log| - 1]) in keys then 1 else 0)
  }

  /** What the accumulator holds after a log. */
  ghost predicate Refines(a: Totals, log: seq<Record>) {
    && a.flows == |log|
    && a.aggs.Keys == KeySet(Retained(log))
    && (forall k :: k in a.aggs ==> Describes(a.aggs[k], Of(log, k)))
    && a.dropped == |log| - Kept(log, a.aggs.Keys)
  }

  /** A key is in the log's arrivals exactly when some record has it. */
  lemma {:induction false} OfNothing(log: seq<Record>, k: Key)
    ensures Of(log, k) == [] <==> k !in Arrivals(log)
  {
    hide KeyOf;
    if log != [] {
      OfNothing(log[..|log| - 1], k);
    }
  }

  /** The first arrivals never change: a key once retained, or once left out, stays so. */
  lemma RetainedStep(log: seq<Record>, r: Record)
    ensures var k := KeyOf(r);
            var before := Retained(log);
            Retained(log + [r])
            == if k !in Arrivals(log) && |Arrivals(log)| < MAX_AGGREGATES then before + [k] else before
  {
    hide KeyOf;
    assert (log + [r])[..|log|] == log;
    var d := Arrivals(log);
    if KeyOf(r) !in d && |d| >= MAX_AGGREGATES {
      assert (d + [KeyOf(r)])[..MAX_AGGREGATES] == d[..MAX_AGGREGATES];
    }
  }

  lemma OfStep(log: seq<Record>, r: Record, k: Key)
    ensures Of(log + [r], k) == if KeyOf(r) == k then Of(log, k) + [r] else Of(log, k)
  {
    hide KeyOf;
    assert (log + [r])[..|log|] == log;
  }

  lemma {:induction false} KeptOfMore(log: seq<Record>, keys: set<Key>, k: Key)
    requires Of(log, k) == []
    ensures Kept(log, keys + {k}) == Kept(log, keys)
  {
    hide KeyOf;
    if log != [] {
      KeptOfMore(log[..|log| - 1], keys, k);
    }
  }

  lemma {:induction false} KeptBound(log: seq<Record>, keys: set<Key>)
    ensures Kept(log, keys) <= |log|
  {
    hide KeyOf;
    if log != [] {
      KeptBound(log[..|log| - 1], keys);
    }
  }

  lemma KeptStep(log: seq<Record>, r: Record, keys: set<Key>)
    ensures Kept(log + [r], keys) == Kept(log, keys) + (if KeyOf(r) in keys then 1 else 0)
  {
    hide KeyOf;
    assert (log + [r])[..|log|] == log;
  }

  /** The map is full exactly when 20000 distinct keys have arrived. */
  lemma FullWhenArrived(a: Totals, log: seq<Record>)
    requires a.aggs.Keys == KeySet(Retained(log))
    ensures |a.aggs| == |Retained(log)|
    ensures |a.aggs| >= MAX_AGGREGATES <==> |Arrivals(log)| >= MAX_AGGREGATES
  {
    hide Arrivals, KeySet;
    ArrivalsDistinct(log);
    KeySetSize(Retained(log));
  }

  /** Whether a record's key is retained already. */
  lemma RetainedIsArrived(log: seq<Record>, k: Key)
    ensures k in KeySet(Retained(log)) ==> k in Arrivals(log)
    ensures |Arrivals(log)| < MAX_AGGREGATES ==> (k in KeySet(Retained(log)) <==> k in Arrivals(log))
  {
    hide Arrivals;
  }

  lemma KeySetSnoc(ks: seq<Key>, k: Key)
    ensures KeySet(ks + [k]) == KeySet(ks) + {k}
  {
    var all := ks + [k];
    assert all[|ks|] == k && forall i :: 0 <= i < |ks| ==> all[i] == ks[i];
  }

  /** One more record for a key that is retained, or for one that came too late. */
  lemma OldKeyRefines(a: Totals, log: seq<Record>, r: Record)
    requires Refines(a, log) && (KeyOf(r) in a.aggs || |a.aggs| >= MAX_AGGREGATES)
    ensures Refines(Add(a, r), log + [r])
  {
    hide KeyOf, Merge, Describes, Of, Arrivals, Retained, KeySet, Kept;
    var k := KeyOf(r);
    FullWhenArrived(a, log);
    RetainedIsArrived(log, k);
    RetainedStep(log, r);
    KeptStep(log, r, a.aggs.Keys);
    var a' := Add(a, r);
    assert a'.aggs.Keys == a.aggs.Keys;
    forall x | x in a'.aggs
      ensures Describes(a'.aggs[x], Of(log + [r], x))
    {
      OfStep(log, r, x);
      if x == k {
        MergeDescribes(a.aggs[k], Of(log, k), r);
      }
    }
  }

  /** The first record of a key that still finds room. */
  lemma NewKeyRefines(a: Totals, log: seq<Record>, r: Record)
    requires Refines(a, log) && KeyOf(r) !in a.aggs && |a.aggs| < MAX_AGGREGATES
    ensures Refines(Add(a, r), log + [r])
  {
    hide KeyOf, Merge, Describes, Of, Arrivals, Retained, KeySet, Kept;
    var k := KeyOf(r);
    FullWhenArrived(a, log);
    RetainedIsArrived(log, k);
    RetainedStep(log, r);
    KeySetSnoc(Retained(log), k);
    OfNothing(log, k);
    KeptOfMore(log, a.aggs.Keys, k);
    KeptStep(log, r, a.aggs.Keys + {k});
    var a' := Add(a, r);
    assert a'.aggs.Keys == a.aggs.Keys + {k};
    forall x | x in a'.aggs
      ensures Describes(a'.aggs[x], Of(log + [r], x))
    {
      OfStep(log, r, x);
      if x == k {
        assert [] + [r] == [r];
        NewDescribes(r);
      }
    }
  }

  lemma EmptyRefines()
    ensures Refines(NOTHING, [])
  {
    assert KeySet(Retained([])) == {};
  }

  /**
   * The accumulator refines group-by, for every log: it retains exactly the first 20000 distinct keys, and each entry
   * is what grouping the whole log by that key would give.
   */
  lemma {:induction false} AccumulatorIsGroupBy(log: seq<Record>)
    ensures Refines(AddAll(log), log)
  {
    hide Refines, Add, KeyOf;
    if log == [] {
      EmptyRefines();
    } else {
      var before, r := log[..|log| - 1], log[|log| - 1];
      AccumulatorIsGroupBy(before);
      assert log == before + [r];
      if KeyOf(r) in AddAll(before).aggs || |AddAll(before).aggs| >= MAX_AGGREGATES {
        OldKeyRefines(AddAll(before), before, r);
      } else {
        NewKeyRefines(AddAll(before), before, r);
      }
    }
  }

  // ---------------------------------------------------------------- conservation

  function SumCounts(aggs: map<Key, Entry>, ks: seq<Key>): nat
    requires forall i :: 0 <= i < |ks| ==> ks[i] in aggs
  {
    if ks == [] then 0 else SumCounts(aggs, ks[..|ks| - 1]) + aggs[ks[|ks| - 1]].count
  }

  lemma {:induction false} KeptOfNone(log: seq<Record>)
    ensures Kept(log, {}) == 0
  {
    if log != [] {
      KeptOfNone(log[..|log| - 1]);
    }
  }

  lemma {:induction false} KeptOfOneMore(log: seq<Record>, keys: set<Key>, k: Key)
    requires k !in keys
    ensures Kept(log, keys + {k}) == Kept(log, keys) + |Of(log, k)|
  {
    hide KeyOf;
    if log != [] {
      KeptOfOneMore(log[..|log| - 1], keys, k);
    }
  }

  /** The counts of some keys add up to the records that have one of those keys. */
  lemma {:induction false} CountsAddUp(aggs: map<Key, Entry>, ks: seq<Key>, log: seq<Record>)
    requires NoRepeats(ks) && forall i :: 0 <= i < |ks| ==> ks[i] in aggs && aggs[ks[i]].count == |Of(log, ks[i])|
    ensures SumCounts(aggs, ks) == Kept(log, KeySet(ks))
    decreases |ks|
  {
    hide Of, Kept;
    if ks == [] {
      assert KeySet(ks) == {};
      KeptOfNone(log);
    } else {
      var front, last := ks[..|ks| - 1], ks[|ks| - 1];
      CountsAddUp(aggs, front, log);
      assert front + [last] == ks;
      KeySetSnoc(front, last);
      assert last !in KeySet(front);
      KeptOfOneMore(log, KeySet(front), last);
    }
  }

  /**
   * Every handshake is in one aggregate's count or in the dropped counter: the counts and the drops add up to Flows.
   */
  lemma CountsAndDropsAreFlows(log: seq<Record>)
    ensures forall i :: 0 <= i < |Retained(log)| ==> Retained(log)[i] in AddAll(log).aggs
    ensures SumCounts(AddAll(log).aggs, Retained(log)) + AddAll(log).dropped == AddAll(log).flows == |log|
  {
    AccumulatorIsGroupBy(log);
    var a := AddAll(log);
    ArrivalsDistinct(log);
    var ks := Retained(log);
    assert NoRepeats(ks);
    hide Arrivals, Retained, AddAll, Of, Kept;
    forall i | 0 <= i < |ks|
      ensures ks[i] in a.aggs && a.aggs[ks[i]].count == |Of(log, ks[i])|
    {
      assert ks[i] in KeySet(ks);
      assert Describes(a.aggs[ks[i]], Of(log, ks[i]));
    }
    CountsAddUp(a.aggs, ks, log);
    KeptBound(log, a.aggs.Keys);
  }

  /** How many handshakes of a log are the same finding as this one. */
  function Alike(log: seq<Record>, r: Record): nat {
    if log == [] then 0
    else Alike(log[..|log| - 1], r) + (if SameFinding(log[|log| - 1], r) then 1 else 0)
  }

  lemma {:induction false} OfCountsAlike(log: seq<Record>, r: Record)
    ensures |Of(log, KeyOf(r))| == Alike(log, r)
  {
    hide KeyOf, SameFinding;
    if log != [] {
      OfCountsAlike(log[..|log| - 1], r);
      SameKeyIff(log[|log| - 1], r);
    }
  }

  /**
   * For every log: a retained handshake is in an entry that counts exactly the handshakes that are the same finding.
   */
  lemma EntryCountsAlike(log: seq<Record>, i: nat)
    requires i < |log| && KeyOf(log[i]) in AddAll(log).aggs
    ensures AddAll(log).aggs[KeyOf(log[i])].count == Alike(log, log[i])
    ensures SameFinding(AddAll(log).aggs[KeyOf(log[i])].first, log[i])
  {
    hide AddAll, Of, KeyOf, SameFinding, Alike, AllFindings, Clients, Fingerprints, Sample, Earliest, Latest, WorstOf;
    AccumulatorIsGroupBy(log);
    var k := KeyOf(log[i]);
    assert Describes(AddAll(log).aggs[k], Of(log, k));
    OfCountsAlike(log, log[i]);
    OfHasKey(log, k);
    SameKeyIff(Of(log, k)[0], log[i]);
  }

  // ---------------------------------------------------------------- what the drops count

  /** The distinct keys that came too late to be retained. */
  function Untracked(log: seq<Record>): seq<Key> {
    Arrivals(log)[|Retained(log)|..]
  }

  /** How many records have one of these keys, key by key. */
  function Occurrences(log: seq<Record>, ks: seq<Key>): nat {
    if ks == [] then 0 else Occurrences(log, ks[..|ks| - 1]) + |Of(log, ks[|ks| - 1])|
  }

  lemma {:induction false} OccurrencesAreKept(log: seq<Record>, ks: seq<Key>)
    requires NoRepeats(ks)
    ensures Kept(log, KeySet(ks)) == Occurrences(log, ks)
    decreases |ks|
  {
    hide Of, Kept;
    if ks == [] {
      assert KeySet(ks) == {};
      KeptOfNone(log);
    } else {
      var front, last := ks[..|ks| - 1], ks[|ks| - 1];
      OccurrencesAreKept(log, front);
      assert front + [last] == ks;
      KeySetSnoc(front, last);
      KeptOfOneMore(log, KeySet(front), last);
    }
  }

  lemma {:induction false} OccurrencesAppend(log: seq<Record>, a: seq<Key>, b: seq<Key>)
    ensures Occurrences(log, a + b) == Occurrences(log, a) + Occurrences(log, b)
    decreases |b|
  {
    hide Of;
    if b == [] {
      assert a + b == a;
    } else {
      assert (a + b)[..|a + b| - 1] == a + b[..|b| - 1];
      OccurrencesAppend(log, a, b[..|b| - 1]);
    }
  }

  /** Every record has an arrived key. */
  lemma {:induction false} AllArrived(log: seq<Record>, keys: set<Key>)
    requires forall k :: k in Arrivals(log) ==> k in keys
    ensures Kept(log, keys) == |log|
  {
    hide KeyOf;
    if log != [] {
      AllArrived(log[..|log| - 1], keys);
    }
  }

  /** Keys that all occur occur at least as often as there are keys, and exactly so when each occurs once. */
  lemma {:induction false} OncePerKey(log: seq<Record>, ks: seq<Key>)
    requires forall i :: 0 <= i < |ks| ==> Of(log, ks[i]) != []
    ensures Occurrences(log, ks) >= |ks|
    ensures Occurrences(log, ks) == |ks| <==> forall i :: 0 <= i < |ks| ==> |Of(log, ks[i])| == 1
    decreases |ks|
  {
    hide Of;
    if ks != [] {
      var front := ks[..|ks| - 1];
      OncePerKey(log, front);
      assert forall i :: 0 <= i < |front| ==> front[i] == ks[i];
    }
  }

  /** The drops are the handshakes of the untracked keys, every one of them. */
  lemma DropsAreOccurrences(log: seq<Record>)
    ensures AddAll(log).dropped == Occurrences(log, Untracked(log))
  {
    AccumulatorIsGroupBy(log);
    ArrivalsDistinct(log);
    hide Of, Kept, AddAll, Arrivals, Occurrences, KeyOf;
    var arrived, kept, late := Arrivals(log), Retained(log), Untracked(log);
    assert arrived == kept + late;
    OccurrencesAppend(log, kept, late);
    OccurrencesAreKept(log, arrived);
    OccurrencesAreKept(log, kept);
    AllArrived(log, KeySet(arrived));
  }

  /**
   * `AggregatesDropped` is documented to count distinct findings. It counts them if and only if no finding that came
   * too late came twice; otherwise it is larger.
   */
  lemma DropsAreDistinctIff(log: seq<Record>)
    ensures AddAll(log).dropped >= |Untracked(log)|
    ensures AddAll(log).dropped == |Untracked(log)|
      <==> forall i :: 0 <= i < |Untracked(log)| ==> |Of(log, Untracked(log)[i])| == 1
  {
    DropsAreOccurrences(log);
    hide Of, AddAll, Arrivals, Occurrences;
    forall i | 0 <= i < |Untracked(log)|
      ensures Of(log, Untracked(log)[i]) != []
    {
      OfNothing(log, Untracked(log)[i]);
    }
    OncePerKey(log, Untracked(log));
  }

  /** A record of its own key for every port. */
  function Numbered(i: int): Record {
    Record(0, 0, "tcp", "", "", i % 0x10000, "", false, 0, "", "", "", "", "", "", [], false)
  }

  function Ports(n: nat): seq<Record> {
    seq(n, i => Numbered(i))
  }

  function PortKeys(n: nat): seq<Key> {
    seq(n, i => KeyOf(Numbered(i)))
  }

  lemma PortsDiffer(i: nat, n: nat)
    requires n < 0x10000
    ensures KeyOf(Numbered(n)) in PortKeys(i) ==> n < i
  {
    hide PortKeys;
    if KeyOf(Numbered(n)) in PortKeys(i) {
      var j := FindPort(i, KeyOf(Numbered(n)));
      assert KeyOf(Numbered(n)).port == n == j % 0x10000;
    }
  }

  lemma FindPort(n: nat, k: Key) returns (j: nat)
    requires k in PortKeys(n)
    ensures j < n && KeyOf(Numbered(j)) == k
  {
    hide KeyOf, Numbered;
    j :| j < |PortKeys(n)| && PortKeys(n)[j] == k;
  }

  lemma {:induction false} PortsArrive(n: nat)
    requires n < 0x10000
    ensures Arrivals(Ports(n)) == PortKeys(n)
  {
    hide KeyOf, Numbered;
    if n > 0 {
      PortsArrive(n - 1);
      PortsDiffer(n - 1, n - 1);
      assert Ports(n)[..n - 1] == Ports(n - 1);
      assert PortKeys(n) == PortKeys(n - 1) + [KeyOf(Numbered(n - 1))];
    }
  }

  /** The first so many ports, and the last of them once more. */
  function LastTwice(n: nat): seq<Record> {
    Ports(n + 1) + [Numbered(n)]
  }

  lemma LastTwiceArrives(n: nat)
    requires n < 0xffff
    ensures Arrivals(LastTwice(n)) == PortKeys(n + 1)
  {
    hide KeyOf, Numbered;
    PortsArrive(n + 1);
    assert LastTwice(n)[..n + 1] == Ports(n + 1);
    assert PortKeys(n + 1)[n] == KeyOf(Numbered(n));
  }

  lemma LastTwiceOccurs(n: nat)
    requires n < 0xffff
    ensures |Of(LastTwice(n), KeyOf(Numbered(n)))| == 2
  {
    hide KeyOf, Numbered, Of;
    var k := KeyOf(Numbered(n));
    OfStep(Ports(n + 1), Numbered(n), k);
    assert Ports(n + 1) == Ports(n) + [Numbered(n)];
    OfStep(Ports(n), Numbered(n), k);
    PortsArrive(n);
    PortsDiffer(n, n);
    OfNothing(Ports(n), k);
  }

  /** The log that tells the two numbers apart: one finding too many, seen twice, is two drops and one finding. */
  lemma DropsAreNotDistinct()
    ensures |Untracked(LastTwice(MAX_AGGREGATES))| == 1 && AddAll(LastTwice(MAX_AGGREGATES)).dropped == 2
  {
    hide AddAll, KeyOf, Numbered, Of, Arrivals, LastTwice;
    var log, k := LastTwice(MAX_AGGREGATES), KeyOf(Numbered(MAX_AGGREGATES));
    LastTwiceArrives(MAX_AGGREGATES);
    assert Untracked(log) == [k];
    DropsAreOccurrences(log);
    LastTwiceOccurs(MAX_AGGREGATES);
    assert [k][..0] == [];
  }

  /** All records of a group have the group's key. */
  lemma {:induction false} OfHasKey(log: seq<Record>, k: Key)
    ensures forall i :: 0 <= i < |Of(log, k)| ==> KeyOf(Of(log, k)[i]) == k
  {
    hide KeyOf;
    if log != [] {
      OfHasKey(log[..|log| - 1], k);
    }
  }

  /** The GREASE inference is drawn exactly for the groups in which at least two different config ids were seen. */
  lemma GreaseInference(log: seq<Record>, k: Key)
    requires k in AddAll(log).aggs
    ensures LikelyGrease(AddAll(log).aggs[k]) <==> |ConfigIds(Of(log, k))| >= 2
  {
    AccumulatorIsGroupBy(log);
    OfHasKey(log, k);
    var e, rs := AddAll(log).aggs[k], Of(log, k);
    assert Describes(e, rs);
    hide AddAll, Of, AllFindings, Clients, Fingerprints, Sample, Earliest, Latest, WorstOf;
    assert e.first.ech == k.ech;
    if |rs| == 1 || !k.ech {
      FewConfigIds(rs);
    }
  }

  lemma FewConfigIds(rs: seq<Record>)
    requires |rs| == 1 || forall i :: 0 <= i < |rs| ==> !rs[i].ech
    ensures |ConfigIds(rs)| <= 1
  {
    if |rs| == 1 {
      assert ConfigIds(rs) <= {rs[0].echConfig};
      SubsetSize(ConfigIds(rs), {rs[0].echConfig});
    } else {
      assert ConfigIds(rs) == {};
    }
  }
}
