/** Request metrics kept under NUL-joined keys: every request is counted once in each map. */
module Metrics {
  import Decimal

  const NUL: char := 0 as char

  datatype Request = Request(verb: string, pattern: string, status: int, seconds: real)

  datatype Counters = Counters(counts: map<string, int>, durationSum: map<string, real>, durationCount: map<string, int>)

  function CountKey(verb: string, pattern: string, status: int): string {
    verb + [NUL] + pattern + [NUL] + Decimal.Format(status)
  }

  function DurationKey(verb: string, pattern: string): string {
    verb + [NUL] + pattern
  }

  function Get(m: map<string, int>, key: string): int {
    if key in m then m[key] else 0
  }

  function Recorded(c: Counters, r: Request): Counters {
    var ck, dk := CountKey(r.verb, r.pattern, r.status), DurationKey(r.verb, r.pattern);
    Counters(
      c.counts[ck := Get(c.counts, ck) + 1],
      c.durationSum[dk := (if dk in c.durationSum then c.durationSum[dk] else 0.0) + r.seconds],
      c.durationCount[dk := Get(c.durationCount, dk) + 1])
  }

  class MetricsCollector {
    var counts: map<string, int>
    var durationSum: map<string, real>
    var durationCount: map<string, int>

    function Now(): Counters
      reads this
    {
      Counters(counts, durationSum, durationCount)
    }

    constructor ()
      ensures Now() == Counters(map[], map[], map[])
    {
      counts, durationSum, durationCount := map[], map[], map[];
    }

    method Record(verb: string, pattern: string, status: int, seconds: real)
      modifies this
      ensures Now() == Recorded(old(Now()), Request(verb, pattern, status, seconds))
    {
      var ck := CountKey(verb, pattern, status);
      counts := counts[ck := Get(counts, ck) + 1];
      var dk := DurationKey(verb, pattern);
      durationSum := durationSum[dk := (if dk in durationSum then durationSum[dk] else 0.0) + seconds];
      durationCount := durationCount[dk := Get(durationCount, dk) + 1];
    }
  }

  // ---------------------------------------------------------------- keys

  /** A label that cannot be confused with the separator, as HTTP methods and route patterns are. */
  predicate Label(s: string) { forall i | 0 <= i < |s| :: s[i] != NUL }

  function FirstNul(s: string): (i: nat)
    ensures i <= |s| && (i < |s| ==> s[i] == NUL) && forall j | 0 <= j < i :: s[j] != NUL
  {
    if |s| == 0 || s[0] == NUL then 0 else 1 + FirstNul(s[1..])
  }

  /** strings.SplitN(key, "\x00", n) for n >= 1. */
  function SplitN(s: string, n: nat): seq<string>
    requires n >= 1
  {
    var i := FirstNul(s);
    if n == 1 || i == |s| then [s] else [s[..i]] + SplitN(s[i + 1..], n - 1)
  }

  lemma SplitLabel(part: string, rest: string, n: nat)
    requires Label(part) && n >= 2
    ensures SplitN(part + [NUL] + rest, n) == [part] + SplitN(rest, n - 1)
  {
    var s := part + [NUL] + rest;
    assert s[|part|] == NUL && forall j | 0 <= j < |part| :: s[j] == part[j];
    assert FirstNul(s) == |part|;
    assert s[..|part|] == part && s[|part| + 1..] == rest;
  }

  /** What render splits a key into is what record joined. */
  lemma KeysSplit(verb: string, pattern: string, status: int)
    requires Label(verb) && Label(pattern)
    ensures SplitN(CountKey(verb, pattern, status), 3) == [verb, pattern, Decimal.Format(status)]
    ensures SplitN(DurationKey(verb, pattern), 2) == [verb, pattern]
  {
    SplitTwo(verb, pattern, Decimal.Format(status));
    SplitLabel(verb, pattern, 2);
    assert SplitN(pattern, 1) == [pattern];
  }

  lemma SplitTwo(first: string, second: string, rest: string)
    requires Label(first) && Label(second)
    ensures SplitN(first + [NUL] + second + [NUL] + rest, 3) == [first, second, rest]
  {
    SplitLabel(first, second + [NUL] + rest, 3);
    SplitLabel(second, rest, 2);
    assert SplitN(rest, 1) == [rest];
    assert first + [NUL] + second + [NUL] + rest == first + [NUL] + (second + [NUL] + rest);
  }

  predicate Routine(r: Request) {
    Label(r.verb) && Label(r.pattern) && Decimal.MIN_INT64 <= r.status <= Decimal.MAX_INT64
  }

  lemma KeysAreUnambiguous(a: Request, b: Request)
    requires Routine(a) && Routine(b)
    ensures CountKey(a.verb, a.pattern, a.status) == CountKey(b.verb, b.pattern, b.status) <==>
              a.verb == b.verb && a.pattern == b.pattern && a.status == b.status
    ensures DurationKey(a.verb, a.pattern) == DurationKey(b.verb, b.pattern) <==> a.verb == b.verb && a.pattern == b.pattern
  {
    KeysSplit(a.verb, a.pattern, a.status);
    KeysSplit(b.verb, b.pattern, b.status);
    Decimal.FormatRoundTrip(a.status);
    Decimal.FormatRoundTrip(b.status);
    var p, q := [a.verb, a.pattern, Decimal.Format(a.status)], [b.verb, b.pattern, Decimal.Format(b.status)];
    if p == q { assert p[0] == q[0] && p[1] == q[1] && p[2] == q[2]; }
    var s, t := [a.verb, a.pattern], [b.verb, b.pattern];
    if s == t { assert s[0] == t[0] && s[1] == t[1]; }
  }

  // ---------------------------------------------------------------- durations

  /** The seconds spent on requests of a route. */
  function RouteSeconds(history: seq<Request>, verb: string, pattern: string): real {
    if |history| == 0 then 0.0
    else
      var r := history[|history|-1];
      RouteSeconds(history[..|history|-1], verb, pattern) + if r.verb == verb && r.pattern == pattern then r.seconds else 0.0
  }

  /** For every route durationSum is the sum of the seconds of its requests. */
  lemma {:induction false} DurationsAddUp(history: seq<Request>, verb: string, pattern: string)
    requires Label(verb) && Label(pattern) && forall i | 0 <= i < |history| :: Routine(history[i])
    ensures var (sum, key) := (After(history).durationSum, DurationKey(verb, pattern));
      (if key in sum then sum[key] else 0.0) == RouteSeconds(history, verb, pattern)
    decreases |history|
  {
    if |history| > 0 {
      var r := history[|history|-1];
      DurationsAddUp(history[..|history|-1], verb, pattern);
      KeysAreUnambiguous(r, Request(verb, pattern, 0, 0.0));
    }
  }

  // ---------------------------------------------------------------- conservation

  function After(history: seq<Request>): Counters {
    if |history| == 0 then Counters(map[], map[], map[])
    else Recorded(After(history[..|history|-1]), history[|history|-1])
  }

  /** How many requests of a route there were. */
  function RouteCount(history: seq<Request>, verb: string, pattern: string): nat {
    if |history| == 0 then 0
    else
      var r := history[|history|-1];
      RouteCount(history[..|history|-1], verb, pattern) + if r.verb == verb && r.pattern == pattern then 1 else 0
  }

  /** The counts of a route added up over a list of statuses. */
  function SumOverStatuses(c: Counters, verb: string, pattern: string, statuses: seq<int>): int {
    if |statuses| == 0 then 0
    else
      SumOverStatuses(c, verb, pattern, statuses[..|statuses|-1])
      + Get(c.counts, CountKey(verb, pattern, statuses[|statuses|-1]))
  }

  ghost predicate Distinct(s: seq<int>) { forall i, j | 0 <= i < j < |s| :: s[i] != s[j] }

  ghost predicate InRange(statuses: seq<int>) {
    forall i | 0 <= i < |statuses| :: Decimal.MIN_INT64 <= statuses[i] <= Decimal.MAX_INT64
  }

  /** One more request adds one to the sum of its own route and nothing to any other. */
  lemma {:induction false} SumAfterRequest(c: Counters, r: Request, verb: string, pattern: string, statuses: seq<int>)
    requires Routine(r) && Label(verb) && Label(pattern) && Distinct(statuses) && InRange(statuses)
    ensures SumOverStatuses(Recorded(c, r), verb, pattern, statuses)
            == SumOverStatuses(c, verb, pattern, statuses)
               + if r.verb == verb && r.pattern == pattern && r.status in statuses then 1 else 0
    decreases |statuses|
  {
    if |statuses| > 0 {
      var init, s := statuses[..|statuses|-1], statuses[|statuses|-1];
      assert statuses == init + [s];
      SumAfterRequest(c, r, verb, pattern, init);
      KeysAreUnambiguous(r, Request(verb, pattern, s, 0.0));
    }
  }

  lemma {:induction false} NothingCountedYet(verb: string, pattern: string, statuses: seq<int>)
    ensures SumOverStatuses(Counters(map[], map[], map[]), verb, pattern, statuses) == 0
    decreases |statuses|
  {
    if |statuses| > 0 { NothingCountedYet(verb, pattern, statuses[..|statuses|-1]); }
  }

  /** For every route, the counts summed over all statuses that occurred equal durationCount, and
      both are the number of requests. */
  lemma {:induction false} CountsAreConserved(history: seq<Request>, verb: string, pattern: string, statuses: seq<int>)
    requires Label(verb) && Label(pattern) && Distinct(statuses) && InRange(statuses)
    requires forall i | 0 <= i < |history| :: Routine(history[i])
    requires forall i | 0 <= i < |history| && history[i].verb == verb && history[i].pattern == pattern :: history[i].status in statuses
    ensures SumOverStatuses(After(history), verb, pattern, statuses) == RouteCount(history, verb, pattern)
    ensures Get(After(history).durationCount, DurationKey(verb, pattern)) == RouteCount(history, verb, pattern)
    decreases |history|
  {
    if |history| == 0 {
      NothingCountedYet(verb, pattern, statuses);
    } else {
      var init, r := history[..|history|-1], history[|history|-1];
      CountsAreConserved(init, verb, pattern, statuses);
      SumAfterRequest(After(init), r, verb, pattern, statuses);
      KeysAreUnambiguous(r, Request(verb, pattern, 0, 0.0));
    }
  }
}
