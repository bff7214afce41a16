/** A site's log view: two log tables, each asked for its newest rows, merged into one list. */
module SiteLogs {
  import opened Wrappers
  import opened Seqs
  import opened NewestFirst

  datatype Kind = Traffic | System

  datatype LogEntry = LogEntry(id: string, siteId: string, kind: Kind, level: string, createdAt: string, rest: string)

  datatype LogQuery = LogQuery(kind: string, level: string, startTime: string, endTime: string, limit: int)

  datatype LogError = EmptySiteId

  const CREATED := (e: LogEntry) => e.createdAt

  predicate Matches(siteId: string, q: LogQuery, e: LogEntry) {
    && e.siteId == siteId
    && (q.level != "" ==> e.level == q.level)
    && (q.startTime != "" ==> AtMost(q.startTime, e.createdAt))
    && (q.endTime != "" ==> AtMost(e.createdAt, q.endTime))
  }

  function Matching(siteId: string, q: LogQuery, rows: seq<LogEntry>): seq<LogEntry> {
    Filter(rows, (e: LogEntry) => Matches(siteId, q, e))
  }

  /** What one table contributes under the query's kind. */
  function Source(q: LogQuery, kind: string, siteId: string, table: seq<LogEntry>): seq<LogEntry> {
    if q.kind in {"", "all", kind} then Matching(siteId, q, table) else []
  }

  /** Every row the query is about, in no particular order. */
  function Wanted(siteId: string, q: LogQuery, traffic: seq<LogEntry>, system: seq<LogEntry>): seq<LogEntry> {
    Source(q, "traffic", siteId, traffic) + Source(q, "system", siteId, system)
  }

  function EffectiveLimit(limit: int): (k: nat)
    ensures 0 < k <= 500
    ensures 0 < limit <= 500 ==> k == limit
  {
    if limit <= 0 then 100 else if limit > 500 then 500 else limit
  }

  method ListTable(table: seq<LogEntry>, siteId: string, q: LogQuery, limit: nat) returns (items: seq<LogEntry>)
    ensures Newest(Matching(siteId, q, table), CREATED, limit, items)
  {
    items := SelectNewest(Matching(siteId, q, table), CREATED, limit);
  }

  lemma NothingIsNewest(limit: nat)
    ensures Newest([], CREATED, limit, [])
  {
  }

  method MergeNewest(a: seq<LogEntry>, b: seq<LogEntry>, limit: nat) returns (items: seq<LogEntry>)
    ensures Newest(a + b, CREATED, limit, items)
  {
    items := SortNewestFirst(a + b, CREATED);
    SortedPrefixIsNewest(a + b, CREATED, limit, items);
    hide *;
    if |items| > limit {
      items := items[..limit];
    } else {
      TakeAll(items);
    }
  }

  /** The merged list is a newest-first answer over everything wanted at once. */
  method ListSiteLogs(traffic: seq<LogEntry>, system: seq<LogEntry>, siteId: string, q: LogQuery)
    returns (r: Result<seq<LogEntry>, LogError>)
    ensures r.Failure? <==> siteId == ""
    ensures r.Success? ==>
              Newest(Wanted(siteId, q, traffic, system), CREATED, EffectiveLimit(q.limit), r.value)
  {
    if siteId == "" {
      return Failure(EmptySiteId);
    }
    var limit := q.limit;
    if limit <= 0 {
      limit := 100;
    }
    if limit > 500 {
      limit := 500;
    }
    var kind := q.kind;
    if kind == "" {
      kind := "all";
    }
    assert limit == EffectiveLimit(q.limit);
    NothingIsNewest(limit);
    hide Newest, Matching, EffectiveLimit;
    assert kind == "all" || kind == "traffic" <==> q.kind in {"", "all", "traffic"};
    assert kind == "all" || kind == "system" <==> q.kind in {"", "all", "system"};
    var fromTraffic, fromSystem := [], [];
    if kind == "all" || kind == "traffic" {
      fromTraffic := ListTable(traffic, siteId, q, limit);
    }
    assert Newest(Source(q, "traffic", siteId, traffic), CREATED, limit, fromTraffic);
    if kind == "all" || kind == "system" {
      fromSystem := ListTable(system, siteId, q, limit);
    }
    assert Newest(Source(q, "system", siteId, system), CREATED, limit, fromSystem);
    hide *;
    var items := MergeNewest(fromTraffic, fromSystem, limit);
    NewestOfNewest(Source(q, "traffic", siteId, traffic), Source(q, "system", siteId, system),
                   CREATED, limit, fromTraffic, fromSystem, items);
    return Success(items);
  }

  /** So it shows the timestamps that sorting all wanted rows and cutting would show. */
  lemma MergedEqualsSimple(wanted: seq<LogEntry>, limit: nat, merged: seq<LogEntry>, sorted: seq<LogEntry>)
    requires Newest(wanted, CREATED, limit, merged)
    requires Descending(sorted, CREATED) && multiset(sorted) == multiset(wanted)
    ensures Keys(merged, CREATED) == Keys(sorted[..Limited(limit, |sorted|)], CREATED)
    ensures multiset(merged) <= multiset(wanted)
  {
    SortedPrefixIsNewest(wanted, CREATED, limit, sorted);
    NewestKeysUnique(wanted, CREATED, limit, merged, sorted[..Limited(limit, |sorted|)]);
  }
}
