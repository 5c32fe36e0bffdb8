/** `Communibase\Logging\DebugStack`: a query logger that keeps every logged request in a
    map numbered from 1, with the time each one took. `microtime(true)` is the `now`
    parameter of both methods. */
module Logging {
  import opened Php

  /** One entry of `$queries`. `stopQuery` on an index that holds no entry creates one that
      holds only the time. */
  datatype LogEntry =
    | Logged(query: string, params: Option<Entries>, data: Option<Entries>, executionMS: real)
    | TimingOnly(executionMS: real)

  /** The arguments of one `startQuery` call. */
  datatype Call = Call(query: string, params: Option<Entries>, data: Option<Entries>)

  /** The indexes 1 .. n. */
  function Range(n: nat): (r: set<nat>)
    ensures forall i :: i in r <==> 1 <= i <= n
  {
    if n == 0 then {} else Range(n - 1) + {n}
  }

  /** The log after an enabled `startQuery`: the call stored at the next index. */
  function Started(queries: map<nat, LogEntry>, current: nat, call: Call): (r: map<nat, LogEntry>)
    ensures r.Keys == queries.Keys + {current + 1}
    ensures r[current + 1] == Entry(call)
    ensures forall i :: i in queries && i != current + 1 ==> r[i] == queries[i]
  {
    queries[current + 1 := Entry(call)]
  }

  /** The log after an enabled `stopQuery`: only the time of entry `current` changes. */
  function Stopped(queries: map<nat, LogEntry>, current: nat, elapsed: real): (r: map<nat, LogEntry>)
    ensures r.Keys == queries.Keys + {current}
    ensures r[current].executionMS == elapsed
    ensures forall i :: i in queries && i != current ==> r[i] == queries[i]
    ensures current in queries && queries[current].Logged? ==>
      r[current].Logged? &&
      r[current].query == queries[current].query &&
      r[current].params == queries[current].params &&
      r[current].data == queries[current].data
  {
    if current in queries then queries[current := queries[current].(executionMS := elapsed)]
    else queries[current := TimingOnly(elapsed)]
  }

  /** `microtime(true) - $this->start`; an unset start reads as 0. */
  function Elapsed(now: real, start: Option<real>): real
  {
    if start.Some? then now - start.value else now
  }

  class DebugStack {
    var queries: map<nat, LogEntry>
    var enabled: bool
    var start: Option<real>
    var currentQuery: nat

    /** The entries are numbered 1 .. currentQuery without gaps. */
    ghost predicate Numbered()
      reads this
    {
      queries.Keys == Range(currentQuery)
    }

    /** A new stack is empty and enabled, with the counter at 0. */
    constructor ()
      ensures queries == map[] && enabled && start.None? && currentQuery == 0
      ensures Numbered()
    {
      queries := map[];
      enabled := true;
      start := None;
      currentQuery := 0;
    }

    /** `startQuery($query, $params, $data)`. */
    method StartQuery(query: string, params: Option<Entries>, data: Option<Entries>, now: real)
      modifies this`queries, this`start, this`currentQuery
      ensures !enabled ==> queries == old(queries) && start == old(start) && currentQuery == old(currentQuery)
      ensures enabled ==>
        && currentQuery == old(currentQuery) + 1
        && queries == Started(old(queries), old(currentQuery), Call(query, params, data))
        && start == Some(now)
      ensures old(Numbered()) ==> Numbered()
    {
      if !enabled {
        return;
      }
      start := Some(now);
      currentQuery := currentQuery + 1;
      queries := queries[currentQuery := Logged(query, params, data, 0.0)];
    }

    /** `stopQuery()`. */
    method StopQuery(now: real)
      modifies this`queries
      ensures !enabled ==> queries == old(queries)
      ensures enabled ==> queries == Stopped(old(queries), currentQuery, Elapsed(now, start))
      ensures old(Numbered()) && currentQuery >= 1 ==> Numbered()
    {
      if !enabled {
        return;
      }
      var elapsed := Elapsed(now, start);
      if currentQuery in queries {
        queries := queries[currentQuery := queries[currentQuery].(executionMS := elapsed)];
      } else {
        queries := queries[currentQuery := TimingOnly(elapsed)];
      }
    }
  }

  /** The log after a sequence of enabled `startQuery` calls from counter `current`; the
      counter then stands at `current + |calls|`, where the last call is logged. */
  function StartAll(queries: map<nat, LogEntry>, current: nat, calls: seq<Call>): (r: map<nat, LogEntry>)
    ensures calls != [] ==> current + |calls| in r
    ensures calls != [] ==> r[current + |calls|] == Entry(calls[|calls| - 1])
  {
    if calls == [] then queries
    else Started(StartAll(queries, current, calls[..|calls| - 1]), current + |calls| - 1, calls[|calls| - 1])
  }

  /** The entry a start logs for a call. */
  function Entry(call: Call): LogEntry
  {
    Logged(call.query, call.params, call.data, 0.0)
  }

  /** Starting from a numbered log, any sequence of enabled starts keeps the keys exactly
      1 .. currentQuery, stores the k-th call at index current + k and leaves the older
      entries alone. */
  lemma StartsAreNumbered(queries: map<nat, LogEntry>, current: nat, calls: seq<Call>)
    requires queries.Keys == Range(current)
    ensures var qs := StartAll(queries, current, calls);
      && qs.Keys == Range(current + |calls|)
      && (forall k :: 0 <= k < |calls| ==> qs[current + k + 1] == Entry(calls[k]))
      && (forall i :: i in queries ==> qs[i] == queries[i])
  {
    StartsKeys(queries, current, calls);
    forall k | 0 <= k < |calls|
      ensures StartAll(queries, current, calls)[current + k + 1] == Entry(calls[k])
    {
      StartsStore(queries, current, calls, k);
    }
    StartsKeepOlder(queries, current, calls);
  }

  lemma {:induction false} StartsKeys(queries: map<nat, LogEntry>, current: nat, calls: seq<Call>)
    requires queries.Keys == Range(current)
    ensures StartAll(queries, current, calls).Keys == Range(current + |calls|)
  {
    if calls != [] {
      var init := calls[..|calls| - 1];
      StartsKeys(queries, current, init);
      StartStep(StartAll(queries, current, init), current + |init|, calls[|calls| - 1]);
    }
  }

  lemma {:induction false} StartsStore(queries: map<nat, LogEntry>, current: nat, calls: seq<Call>, k: nat)
    requires k < |calls|
    ensures current + k + 1 in StartAll(queries, current, calls)
    ensures StartAll(queries, current, calls)[current + k + 1] == Entry(calls[k])
  {
    var init := calls[..|calls| - 1];
    if k < |init| {
      StartsStore(queries, current, init, k);
      assert init[k] == calls[k];
    }
  }

  lemma {:induction false} StartsKeepOlder(queries: map<nat, LogEntry>, current: nat, calls: seq<Call>)
    requires queries.Keys == Range(current)
    ensures forall i :: i in queries ==>
      (i in StartAll(queries, current, calls) && StartAll(queries, current, calls)[i] == queries[i])
  {
    if calls != [] {
      var init := calls[..|calls| - 1];
      StartsKeepOlder(queries, current, init);
    }
  }

  /** One enabled start on a log numbered 1 .. n numbers it 1 .. n + 1. */
  lemma StartStep(qs: map<nat, LogEntry>, n: nat, call: Call)
    requires qs.Keys == Range(n)
    ensures Started(qs, n, call).Keys == Range(n + 1)
    ensures n + 1 !in qs
  {
  }

  /** A fresh stack after `n` starts holds exactly the calls, at indexes 1 .. n. */
  lemma FreshStackLogsCalls(calls: seq<Call>)
    ensures var qs := StartAll(map[], 0, calls);
      && qs.Keys == Range(|calls|)
      && forall k :: 0 <= k < |calls| ==> qs[k + 1] == Entry(calls[k])
  {
    var empty: map<nat, LogEntry> := map[];
    assert empty.Keys == Range(0);
    StartsAreNumbered(empty, 0, calls);
    var qs := StartAll(empty, 0, calls);
    assert forall k :: 0 <= k < |calls| ==>
      qs[0 + k + 1] == Entry(calls[k]);
  }

  /** Stopping the latest query keeps the numbering; stopping before any start adds an
      entry 0 that holds only the time. */
  lemma StopKeepsNumbering(queries: map<nat, LogEntry>, current: nat, elapsed: real)
    requires queries.Keys == Range(current)
    ensures current >= 1 ==> Stopped(queries, current, elapsed).Keys == Range(current)
    ensures current == 0 ==> Stopped(queries, current, elapsed) == map[0 := TimingOnly(elapsed)]
  {
    if current == 0 {
      assert queries == map[];
    }
  }
}
