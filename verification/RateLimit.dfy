/** The token-bucket limiter: what it grants, exactly, and why dropping idle buckets cannot be seen. */
module RateLimits {

  /** A client's bucket; times are seconds on a monotonic clock. */
  datatype TokenBucket = TokenBucket(tokens: real, lastCheck: real)

  datatype Limits = Limits(rate: real, burst: real)

  type Buckets = map<string, TokenBucket>

  function Least(a: real, b: real): real { if a < b then a else b }

  function Refilled(cfg: Limits, b: TokenBucket, now: real): real {
    Least(b.tokens + (now - b.lastCheck) * cfg.rate, cfg.burst)
  }

  /** Is a call of `key` at `now` let through? */
  predicate Grants(cfg: Limits, buckets: Buckets, key: string, now: real) {
    key !in buckets || Refilled(cfg, buckets[key], now) >= 1.0
  }

  function AfterCall(cfg: Limits, buckets: Buckets, key: string, now: real): Buckets {
    if key !in buckets then buckets[key := TokenBucket(cfg.burst - 1.0, now)]
    else
      var refilled := Refilled(cfg, buckets[key], now);
      buckets[key := TokenBucket(if refilled >= 1.0 then refilled - 1.0 else refilled, now)]
  }

  function AfterPrune(buckets: Buckets, now: real, maxAge: real): Buckets {
    map k | k in buckets && !(buckets[k].lastCheck < now - maxAge) :: buckets[k]
  }

  /** Which buckets a prune leaves: those used at the cutoff or later, as they were. */
  lemma AfterPruneIff(buckets: Buckets, now: real, maxAge: real, key: string)
    ensures key in AfterPrune(buckets, now, maxAge) <==> key in buckets && buckets[key].lastCheck + maxAge >= now
    ensures key in AfterPrune(buckets, now, maxAge) ==> AfterPrune(buckets, now, maxAge)[key] == buckets[key]
  {
  }

  class RateLimiter {
    var buckets: map<string, TokenBucket>
    const rate: real
    const burst: real

    function Cfg(): Limits { Limits(rate, burst) }

    constructor (ratePerSecond: real, burst: int)
      ensures buckets == map[] && Cfg() == Limits(ratePerSecond, burst as real)
    {
      buckets := map[];
      rate := ratePerSecond;
      this.burst := burst as real;
    }

    method Allow(key: string, now: real) returns (ok: bool)
      modifies this
      ensures ok == Grants(Cfg(), old(buckets), key, now)
      ensures buckets == AfterCall(Cfg(), old(buckets), key, now)
    {
      if key !in buckets {
        buckets := buckets[key := TokenBucket(burst - 1.0, now)];
        return true;
      }
      var b := buckets[key];
      var elapsed := now - b.lastCheck;
      b := b.(lastCheck := now);
      b := b.(tokens := b.tokens + elapsed * rate);
      if b.tokens > burst {
        b := b.(tokens := burst);
      }
      assert b.tokens == Refilled(Cfg(), old(buckets)[key], now);
      if b.tokens < 1.0 {
        buckets := buckets[key := b];
        return false;
      }
      b := b.(tokens := b.tokens - 1.0);
      buckets := buckets[key := b];
      ok := true;
    }

    /** A history of calls of all clients, served from the start. */
    method ServeAll(calls: seq<Call>) returns (granted: seq<bool>)
      requires buckets == map[]
      modifies this
      ensures |granted| == |calls| && forall n | 0 <= n < |calls| :: granted[n] == Granted(Cfg(), calls, n)
      ensures buckets == After(Cfg(), calls)
    {
      granted := [];
      for n := 0 to |calls|
        invariant |granted| == n && forall m | 0 <= m < n :: granted[m] == Granted(Cfg(), calls, m)
        invariant buckets == After(Cfg(), calls[..n])
      {
        AfterNext(Cfg(), calls, n);
        var ok := Allow(calls[n].key, calls[n].at);
        granted := granted + [ok];
      }
      assert calls[..|calls|] == calls;
    }

    method PruneStale(now: real, maxAge: real)
      modifies this
      ensures buckets == AfterPrune(old(buckets), now, maxAge)
    {
      var cutoff := now - maxAge;
      var rest := buckets.Keys;
      while rest != {}
        invariant rest <= old(buckets).Keys
        invariant buckets == map k | k in old(buckets) && (k in rest || !(old(buckets)[k].lastCheck < cutoff)) :: old(buckets)[k]
        decreases |rest|
      {
        var k :| k in rest;
        rest := rest - {k};
        if buckets[k].lastCheck < cutoff {
          buckets := buckets - {k};
        }
      }
    }
  }

  // ---------------------------------------------------------------- the exact law

  datatype Call = Call(key: string, at: real)

  /** The buckets after a history of calls of all clients. */
  function After(cfg: Limits, calls: seq<Call>): Buckets
    decreases |calls|
  {
    if |calls| == 0 then map[]
    else AfterCall(cfg, After(cfg, calls[..|calls|-1]), calls[|calls|-1].key, calls[|calls|-1].at)
  }

  predicate Granted(cfg: Limits, calls: seq<Call>, n: nat)
    requires n < |calls|
  {
    Grants(cfg, After(cfg, calls[..n]), calls[n].key, calls[n].at)
  }

  /** How many calls of `key` with index in i..n were let through. */
  function GrantedSince(cfg: Limits, calls: seq<Call>, key: string, i: nat, n: nat): nat
    requires i <= n <= |calls|
    decreases n
  {
    if n == i then 0
    else GrantedSince(cfg, calls, key, i, n - 1) + if calls[n - 1].key == key && Granted(cfg, calls, n - 1) then 1 else 0
  }

  /** Tokens left at time `at` if the bucket had been full just before call `i`. */
  function Allowance(cfg: Limits, calls: seq<Call>, key: string, i: nat, n: nat, at: real): real
    requires i < n <= |calls|
  {
    cfg.burst + cfg.rate * (at - calls[i].at) - GrantedSince(cfg, calls, key, i, n) as real
  }

  ghost predicate Seen(calls: seq<Call>, key: string, n: nat)
    requires n <= |calls|
  {
    exists i | 0 <= i < n :: calls[i].key == key
  }

  /** The bucket of `key` after `n` calls holds the smallest of the allowances since its calls. */
  ghost predicate BucketIsLeastAllowance(cfg: Limits, calls: seq<Call>, key: string, n: nat)
    requires n <= |calls|
  {
    var buckets := After(cfg, calls[..n]);
    && (key in buckets <==> Seen(calls, key, n))
    && (key in buckets ==>
          && (forall i | 0 <= i < n && calls[i].key == key ::
                buckets[key].tokens <= Allowance(cfg, calls, key, i, n, buckets[key].lastCheck))
          && (exists i | 0 <= i < n && calls[i].key == key ::
                buckets[key].tokens == Allowance(cfg, calls, key, i, n, buckets[key].lastCheck)))
  }

  lemma AfterNext(cfg: Limits, calls: seq<Call>, n: nat)
    requires n < |calls|
    ensures After(cfg, calls[..n + 1]) == AfterCall(cfg, After(cfg, calls[..n]), calls[n].key, calls[n].at)
  {
    assert calls[..n + 1][..n] == calls[..n];
  }

  /** An allowance grows with time at the given rate. */
  lemma AllowanceLater(cfg: Limits, calls: seq<Call>, key: string, i: nat, n: nat, from: real, until: real)
    requires i < n <= |calls|
    ensures Allowance(cfg, calls, key, i, n, until) == Allowance(cfg, calls, key, i, n, from) + (until - from) * cfg.rate
  {
    assert cfg.rate * (until - calls[i].at) == cfg.rate * (from - calls[i].at) + (until - from) * cfg.rate;
  }

  lemma {:induction false} LeastAllowance(cfg: Limits, calls: seq<Call>, key: string, n: nat)
    requires n <= |calls|
    ensures BucketIsLeastAllowance(cfg, calls, key, n)
  {
    if n == 0 { return; }
    var m := n - 1;
    LeastAllowance(cfg, calls, key, m);
    AfterNext(cfg, calls, m);
    if calls[m].key != key {
      OtherClient(cfg, calls, key, m);
    } else if !Seen(calls, key, m) {
      assert calls[m].key == key;
      assert GrantedSince(cfg, calls, key, m, n) == 1;
      assert After(cfg, calls[..n])[key].tokens == Allowance(cfg, calls, key, m, n, calls[m].at);
    } else {
      OwnCall(cfg, calls, m);
    }
  }

  lemma OtherClient(cfg: Limits, calls: seq<Call>, key: string, m: nat)
    requires m < |calls| && calls[m].key != key && BucketIsLeastAllowance(cfg, calls, key, m)
    requires After(cfg, calls[..m + 1]) == AfterCall(cfg, After(cfg, calls[..m]), calls[m].key, calls[m].at)
    ensures BucketIsLeastAllowance(cfg, calls, key, m + 1)
  {
    var buckets, buckets' := After(cfg, calls[..m]), After(cfg, calls[..m + 1]);
    assert key in buckets' <==> key in buckets;
    if key in buckets {
      var at := buckets[key].lastCheck;
      forall i | 0 <= i < m && calls[i].key == key
        ensures Allowance(cfg, calls, key, i, m + 1, at) == Allowance(cfg, calls, key, i, m, at)
      {
      }
      var i :| 0 <= i < m && calls[i].key == key && buckets[key].tokens == Allowance(cfg, calls, key, i, m, at);
      assert buckets'[key].tokens == Allowance(cfg, calls, key, i, m + 1, at);
    }
  }

  /** A call of the same client lowers every earlier allowance by what it was granted. */
  lemma AllowanceNext(cfg: Limits, calls: seq<Call>, i: nat, m: nat, last: real)
    requires i < m < |calls| && calls[i].key == calls[m].key
    ensures Allowance(cfg, calls, calls[m].key, i, m + 1, calls[m].at)
            == Allowance(cfg, calls, calls[m].key, i, m, last) + (calls[m].at - last) * cfg.rate
               - (if Granted(cfg, calls, m) then 1.0 else 0.0)
  {
    AllowanceLater(cfg, calls, calls[m].key, i, m, last, calls[m].at);
  }

  lemma OwnAllowance(cfg: Limits, calls: seq<Call>, m: nat)
    requires m < |calls|
    ensures Allowance(cfg, calls, calls[m].key, m, m + 1, calls[m].at)
            == cfg.burst - (if Granted(cfg, calls, m) then 1.0 else 0.0)
  {
    assert GrantedSince(cfg, calls, calls[m].key, m, m) == 0;
  }

  /** If some earlier allowance is the smallest, then after the call one of it and the call's own is. */
  lemma LeastOfTwo(cfg: Limits, calls: seq<Call>, m: nat, b: TokenBucket, tokens': real, i: nat)
    requires m < |calls| && tokens' == Refilled(cfg, b, calls[m].at) - (if Granted(cfg, calls, m) then 1.0 else 0.0)
    requires i < m && calls[i].key == calls[m].key
    ensures b.tokens <= Allowance(cfg, calls, calls[m].key, i, m, b.lastCheck) ==>
              tokens' <= Allowance(cfg, calls, calls[m].key, i, m + 1, calls[m].at)
    ensures tokens' <= Allowance(cfg, calls, calls[m].key, m, m + 1, calls[m].at)
    ensures b.tokens == Allowance(cfg, calls, calls[m].key, i, m, b.lastCheck) ==>
              || tokens' == Allowance(cfg, calls, calls[m].key, i, m + 1, calls[m].at)
              || tokens' == Allowance(cfg, calls, calls[m].key, m, m + 1, calls[m].at)
  {
    AllowanceNext(cfg, calls, i, m, b.lastCheck);
    OwnAllowance(cfg, calls, m);
  }

  lemma OwnCall(cfg: Limits, calls: seq<Call>, m: nat)
    requires m < |calls| && Seen(calls, calls[m].key, m) && BucketIsLeastAllowance(cfg, calls, calls[m].key, m)
    requires After(cfg, calls[..m + 1]) == AfterCall(cfg, After(cfg, calls[..m]), calls[m].key, calls[m].at)
    ensures BucketIsLeastAllowance(cfg, calls, calls[m].key, m + 1)
  {
    var key := calls[m].key;
    var b, b' := After(cfg, calls[..m])[key], After(cfg, calls[..m + 1])[key];
    forall i | 0 <= i < m + 1 && calls[i].key == key
      ensures b'.tokens <= Allowance(cfg, calls, key, i, m + 1, b'.lastCheck)
    {
      if i < m {
        LeastOfTwo(cfg, calls, m, b, b'.tokens, i);
      } else {
        OwnAllowance(cfg, calls, m);
      }
    }
    var i :| 0 <= i < m && calls[i].key == key && b.tokens == Allowance(cfg, calls, key, i, m, b.lastCheck);
    LeastOfTwo(cfg, calls, m, b, b'.tokens, i);
  }

  /** The exact law, for every configuration and every clock: the first call of a client is let
      through; a later one exactly when, counted from each earlier call, the grants including
      this one stay within burst + rate * elapsed, and the burst is at least one. */
  lemma TokenBucketLaw(cfg: Limits, calls: seq<Call>, n: nat)
    requires n < |calls|
    ensures var key, now := calls[n].key, calls[n].at;
      Granted(cfg, calls, n) <==>
        || !Seen(calls, key, n)
        || (&& cfg.burst >= 1.0
            && forall i | 0 <= i < n && calls[i].key == key :: Within(cfg, calls, key, i, n, now))
  {
    var key, now := calls[n].key, calls[n].at;
    LeastAllowance(cfg, calls, key, n);
    if Seen(calls, key, n) {
      var b := After(cfg, calls[..n])[key];
      var i :| 0 <= i < n && calls[i].key == key && b.tokens == Allowance(cfg, calls, key, i, n, b.lastCheck);
      WithinAllowance(cfg, calls, key, i, n, b, now);
      forall j | 0 <= j < n && calls[j].key == key && Granted(cfg, calls, n)
        ensures Within(cfg, calls, key, j, n, now)
      {
        WithinAllowance(cfg, calls, key, j, n, b, now);
      }
    }
  }

  /** Counted from call `i`, one more grant at `now` stays within the limits. */
  ghost predicate Within(cfg: Limits, calls: seq<Call>, key: string, i: nat, n: nat, now: real)
    requires i <= n <= |calls| && i < |calls|
  {
    GrantedSince(cfg, calls, key, i, n) as real + 1.0 <= cfg.burst + cfg.rate * (now - calls[i].at)
  }

  lemma WithinAllowance(cfg: Limits, calls: seq<Call>, key: string, i: nat, n: nat, b: TokenBucket, now: real)
    requires i < n <= |calls|
    ensures b.tokens == Allowance(cfg, calls, key, i, n, b.lastCheck) ==>
              (Within(cfg, calls, key, i, n, now) <==> b.tokens + (now - b.lastCheck) * cfg.rate >= 1.0)
    ensures b.tokens <= Allowance(cfg, calls, key, i, n, b.lastCheck) && b.tokens + (now - b.lastCheck) * cfg.rate >= 1.0 ==>
              Within(cfg, calls, key, i, n, now)
  {
    AllowanceLater(cfg, calls, key, i, n, b.lastCheck, now);
  }

  ghost predicate Ordered(calls: seq<Call>) {
    forall i, j | 0 <= i <= j < |calls| :: calls[i].at <= calls[j].at
  }

  lemma {:induction false} SkipOthers(cfg: Limits, calls: seq<Call>, key: string, i: nat, n: nat)
    requires i < n <= |calls| && calls[i].key != key
    ensures GrantedSince(cfg, calls, key, i, n) == GrantedSince(cfg, calls, key, i + 1, n)
    decreases n
  {
    if n > i + 1 { SkipOthers(cfg, calls, key, i, n - 1); }
  }

  lemma ScaledAtMost(rate: real, a: real, b: real)
    requires rate >= 0.0 && a <= b
    ensures rate * a <= rate * b
  {
  }

  /** No window of length `span` ever sees more than burst + rate * span grants of one client. */
  lemma {:induction false} WindowBound(cfg: Limits, calls: seq<Call>, key: string, i: nat, n: nat, span: real)
    requires Ordered(calls) && cfg.burst >= 1.0 && cfg.rate >= 0.0 && span >= 0.0
    requires i <= n <= |calls| && (i < n ==> calls[n - 1].at - calls[i].at <= span)
    ensures GrantedSince(cfg, calls, key, i, n) as real <= cfg.burst + cfg.rate * span
    decreases n - i
  {
    ScaledAtMost(cfg.rate, 0.0, span);
    if i == n { return; }
    if calls[i].key != key {
      SkipOthers(cfg, calls, key, i, n);
      WindowBound(cfg, calls, key, i + 1, n, span);
    } else if calls[n - 1].key != key || !Granted(cfg, calls, n - 1) {
      WindowBound(cfg, calls, key, i, n - 1, span);
    } else {
      WindowOfCalls(cfg, calls, key, i, n, span);
    }
  }

  /** A window that starts at a call of the client and ends with a granted one. */
  lemma WindowOfCalls(cfg: Limits, calls: seq<Call>, key: string, i: nat, n: nat, span: real)
    requires cfg.burst >= 1.0 && cfg.rate >= 0.0 && span >= 0.0
    requires i < n <= |calls| && calls[i].key == key && calls[n - 1].key == key && Granted(cfg, calls, n - 1)
    requires calls[n - 1].at - calls[i].at <= span
    ensures GrantedSince(cfg, calls, key, i, n) as real <= cfg.burst + cfg.rate * span
  {
    if i == n - 1 {
      ScaledAtMost(cfg.rate, 0.0, span);
      assert GrantedSince(cfg, calls, key, i, i) == 0;
    } else {
      TokenBucketLaw(cfg, calls, n - 1);
      assert Within(cfg, calls, key, i, n - 1, calls[n - 1].at);
      WithinSpan(cfg, calls, key, i, n - 1, calls[n - 1].at, span);
    }
  }

  lemma WithinSpan(cfg: Limits, calls: seq<Call>, key: string, i: nat, n: nat, now: real, span: real)
    requires cfg.rate >= 0.0 && i <= n <= |calls| && i < |calls| && Within(cfg, calls, key, i, n, now)
    requires now - calls[i].at <= span
    ensures GrantedSince(cfg, calls, key, i, n) as real + 1.0 <= cfg.burst + cfg.rate * span
  {
    BoundMoves(GrantedSince(cfg, calls, key, i, n) as real + 1.0, cfg.burst, cfg.rate, now - calls[i].at, span);
  }

  lemma BoundMoves(count: real, burst: real, rate: real, elapsed: real, span: real)
    requires rate >= 0.0 && elapsed <= span && count <= burst + rate * elapsed
    ensures count <= burst + rate * span
  {
    ScaledAtMost(rate, elapsed, span);
  }

  // ---------------------------------------------------------------- pruning

  datatype Event = Arrive(key: string, at: real) | Prune(at: real)

  /** The limiter with, and without, its prune loop. */
  function WithPruning(cfg: Limits, events: seq<Event>, maxAge: real): Buckets
    decreases |events|
  {
    if |events| == 0 then map[]
    else
      var before := WithPruning(cfg, events[..|events|-1], maxAge);
      match events[|events|-1]
      case Arrive(key, at) => AfterCall(cfg, before, key, at)
      case Prune(at) => AfterPrune(before, at, maxAge)
  }

  function WithoutPruning(cfg: Limits, events: seq<Event>): Buckets
    decreases |events|
  {
    if |events| == 0 then map[]
    else
      var before := WithoutPruning(cfg, events[..|events|-1]);
      match events[|events|-1]
      case Arrive(key, at) => AfterCall(cfg, before, key, at)
      case Prune(_) => before
  }

  ghost predicate EventsOrdered(events: seq<Event>) {
    forall i, j | 0 <= i <= j < |events| :: events[i].at <= events[j].at
  }

  /** Both limiters decide the n-th event alike. */
  ghost predicate SameDecision(cfg: Limits, events: seq<Event>, maxAge: real, n: nat)
    requires n < |events|
  {
    events[n].Arrive? ==>
      (Grants(cfg, WithPruning(cfg, events[..n], maxAge), events[n].key, events[n].at) <==>
       Grants(cfg, WithoutPruning(cfg, events[..n]), events[n].key, events[n].at))
  }

  ghost predicate Healthy(b: TokenBucket, now: real) {
    b.tokens >= 0.0 && b.lastCheck <= now
  }

  /** The pruned limiter lacks only buckets that would be full again by now. */
  ghost predicate Simulates(cfg: Limits, pruned: Buckets, full: Buckets, now: real) {
    && (forall k | k in full :: Healthy(full[k], now))
    && (forall k | k in pruned :: k in full && pruned[k] == full[k])
    && (forall k | k in full && k !in pruned :: FullAgain(cfg, full[k], now))
  }

  predicate FullAgain(cfg: Limits, b: TokenBucket, now: real) {
    b.tokens + (now - b.lastCheck) * cfg.rate >= cfg.burst
  }

  lemma IdleStaysFull(rate: real, tokens: real, idle: real, longer: real, burst: real)
    requires rate >= 0.0 && idle <= longer && tokens + idle * rate >= burst
    ensures tokens + longer * rate >= burst
  {
    assert longer * rate == idle * rate + (longer - idle) * rate;
  }

  lemma FullLater(cfg: Limits, b: TokenBucket, now: real, later: real)
    requires cfg.rate >= 0.0 && now <= later && FullAgain(cfg, b, now)
    ensures FullAgain(cfg, b, later)
  {
    IdleStaysFull(cfg.rate, b.tokens, now - b.lastCheck, later - b.lastCheck, cfg.burst);
  }

  lemma FullByAge(cfg: Limits, b: TokenBucket, now: real, maxAge: real)
    requires cfg.rate >= 0.0 && maxAge * cfg.rate >= cfg.burst && b.tokens >= 0.0 && b.lastCheck < now - maxAge
    ensures FullAgain(cfg, b, now)
  {
    IdleStaysFull(cfg.rate, b.tokens, maxAge, now - b.lastCheck, cfg.burst);
  }

  lemma SimulatesLater(cfg: Limits, pruned: Buckets, full: Buckets, now: real, later: real)
    requires cfg.rate >= 0.0 && now <= later && Simulates(cfg, pruned, full, now)
    ensures Simulates(cfg, pruned, full, later)
  {
    forall k | k in full && k !in pruned ensures FullAgain(cfg, full[k], later) {
      FullLater(cfg, full[k], now, later);
    }
  }

  lemma SimulatesCall(cfg: Limits, pruned: Buckets, full: Buckets, key: string, now: real)
    requires cfg.burst >= 1.0 && cfg.rate >= 0.0 && Simulates(cfg, pruned, full, now)
    ensures Grants(cfg, pruned, key, now) <==> Grants(cfg, full, key, now)
    ensures Simulates(cfg, AfterCall(cfg, pruned, key, now), AfterCall(cfg, full, key, now), now)
  {
    if key in full {
      RefilledIsHealthy(cfg, full[key], now);
      if key !in pruned {
        assert Refilled(cfg, full[key], now) == cfg.burst;
      }
    }
    var b := AfterCall(cfg, full, key, now)[key];
    assert AfterCall(cfg, pruned, key, now) == pruned[key := b];
    SameBucket(cfg, pruned, full, key, b, now);
  }

  /** Only the caller's bucket changes. */
  lemma SameBucket(cfg: Limits, pruned: Buckets, full: Buckets, key: string, b: TokenBucket, now: real)
    requires Simulates(cfg, pruned, full, now) && Healthy(b, now)
    ensures Simulates(cfg, pruned[key := b], full[key := b], now)
  {
  }

  lemma RefilledIsHealthy(cfg: Limits, b: TokenBucket, now: real)
    requires cfg.burst >= 1.0 && cfg.rate >= 0.0 && Healthy(b, now)
    ensures 0.0 <= Refilled(cfg, b, now) <= cfg.burst
  {
    ScaledAtMost(cfg.rate, 0.0, now - b.lastCheck);
    assert (now - b.lastCheck) * cfg.rate == cfg.rate * (now - b.lastCheck);
  }

  lemma SimulatesPrune(cfg: Limits, pruned: Buckets, full: Buckets, now: real, maxAge: real)
    requires cfg.rate >= 0.0 && maxAge * cfg.rate >= cfg.burst && Simulates(cfg, pruned, full, now)
    ensures Simulates(cfg, AfterPrune(pruned, now, maxAge), full, now)
  {
    forall k | k in full && k !in AfterPrune(pruned, now, maxAge) ensures FullAgain(cfg, full[k], now) {
      if k in pruned {
        FullByAge(cfg, full[k], now, maxAge);
      }
    }
  }

  lemma {:induction false} PruningSimulates(cfg: Limits, events: seq<Event>, maxAge: real, now: real)
    requires cfg.burst >= 1.0 && cfg.rate >= 0.0 && maxAge * cfg.rate >= cfg.burst
    requires EventsOrdered(events) && (|events| > 0 ==> events[|events|-1].at <= now)
    ensures Simulates(cfg, WithPruning(cfg, events, maxAge), WithoutPruning(cfg, events), now)
    decreases |events|
  {
    if |events| == 0 { return; }
    var init, event := events[..|events|-1], events[|events|-1];
    PruningSimulates(cfg, init, maxAge, event.at);
    var pruned, full := WithPruning(cfg, init, maxAge), WithoutPruning(cfg, init);
    match event {
      case Arrive(key, at) => SimulatesCall(cfg, pruned, full, key, at);
      case Prune(at) => SimulatesPrune(cfg, pruned, full, at, maxAge);
    }
    SimulatesLater(cfg, WithPruning(cfg, events, maxAge), WithoutPruning(cfg, events), event.at, now);
  }

  /** Pruning at any times whatever changes no decision, provided an idle bucket is full again
      by the time it may be dropped. */
  lemma PruningUnobservable(cfg: Limits, events: seq<Event>, maxAge: real, n: nat)
    requires cfg.burst >= 1.0 && cfg.rate >= 0.0 && maxAge * cfg.rate >= cfg.burst
    requires EventsOrdered(events) && n < |events|
    ensures SameDecision(cfg, events, maxAge, n)
  {
    PruningSimulates(cfg, events[..n], maxAge, events[n].at);
    if events[n].Arrive? {
      SimulatesCall(cfg, WithPruning(cfg, events[..n], maxAge), WithoutPruning(cfg, events[..n]), events[n].key, events[n].at);
    }
  }

  // ---------------------------------------------------------------- when pruning would show

  const CLIENT := "client"

  /** A client spends its burst at time zero, its bucket is pruned at `later`, and it spends a burst again. */
  function TwoBursts(burst: nat, later: real): seq<Event> {
    seq(2 * burst + 1, i requires 0 <= i < 2 * burst + 1 =>
      if i < burst then Arrive(CLIENT, 0.0) else if i == burst then Prune(later) else Arrive(CLIENT, later))
  }

  lemma PrefixStep(cfg: Limits, events: seq<Event>, maxAge: real, n: nat)
    requires n < |events|
    ensures WithPruning(cfg, events[..n + 1], maxAge) ==
      match events[n]
      case Arrive(key, at) => AfterCall(cfg, WithPruning(cfg, events[..n], maxAge), key, at)
      case Prune(at) => AfterPrune(WithPruning(cfg, events[..n], maxAge), at, maxAge)
    ensures WithoutPruning(cfg, events[..n + 1]) ==
      match events[n]
      case Arrive(key, at) => AfterCall(cfg, WithoutPruning(cfg, events[..n]), key, at)
      case Prune(_) => WithoutPruning(cfg, events[..n])
  {
    assert events[..n + 1][..n] == events[..n];
  }

  /** A bucket drawn on `n` times at one instant since it was full. */
  function Drawn(burst: nat, n: nat, at: real): Buckets {
    if n == 0 then map[] else map[CLIENT := TokenBucket(burst as real - n as real, at)]
  }

  function Only(tokens: real, at: real): Buckets {
    map[CLIENT := TokenBucket(tokens, at)]
  }

  function Refill(cfg: Limits, last: real, now: real): real { (now - last) * cfg.rate }

  lemma NoTimeNoRefill(cfg: Limits, at: real)
    ensures Refill(cfg, at, at) == 0.0
  {
  }

  /** A call on a single bucket that has refilled to `level` by then. */
  lemma CallOnOnly(cfg: Limits, tokens: real, last: real, at: real, level: real)
    requires level == tokens + Refill(cfg, last, at) && level <= cfg.burst
    ensures Grants(cfg, Only(tokens, last), CLIENT, at) <==> level >= 1.0
    ensures AfterCall(cfg, Only(tokens, last), CLIENT, at) == Only(if level >= 1.0 then level - 1.0 else level, at)
  {
    var b := Only(tokens, last)[CLIENT];
    assert Refilled(cfg, b, at) == level;
    assert AfterCall(cfg, Only(tokens, last), CLIENT, at).Keys == {CLIENT};
  }

  lemma DrawOnce(cfg: Limits, burst: nat, n: nat, at: real)
    requires cfg.burst == burst as real && n < burst
    ensures Grants(cfg, Drawn(burst, n, at), CLIENT, at)
    ensures AfterCall(cfg, Drawn(burst, n, at), CLIENT, at) == Drawn(burst, n + 1, at)
  {
    if n > 0 {
      NoTimeNoRefill(cfg, at);
      CallOnOnly(cfg, burst as real - n as real, at, at, burst as real - n as real);
    }
  }

  lemma {:induction false} FirstBurst(cfg: Limits, burst: nat, later: real, maxAge: real, n: nat)
    requires cfg.burst == burst as real && n <= burst
    ensures var events := TwoBursts(burst, later);
      && WithPruning(cfg, events[..n], maxAge) == Drawn(burst, n, 0.0)
      && WithoutPruning(cfg, events[..n]) == Drawn(burst, n, 0.0)
  {
    if n > 0 {
      FirstBurst(cfg, burst, later, maxAge, n - 1);
      PrefixStep(cfg, TwoBursts(burst, later), maxAge, n - 1);
      DrawOnce(cfg, burst, n - 1, 0.0);
    }
  }

  /** Where the two limiters are before event `k`, after `n` calls of the second burst. */
  ghost predicate InBurst(cfg: Limits, events: seq<Event>, maxAge: real, k: nat, burst: nat, n: nat, later: real, level: real)
    requires k <= |events|
  {
    WithPruning(cfg, events[..k], maxAge) == Drawn(burst, n, later) && WithoutPruning(cfg, events[..k]) == Only(level, later)
  }

  /** The client calls again at `later`, and is answered alike. */
  ghost predicate SameAt(cfg: Limits, events: seq<Event>, maxAge: real, n: nat, later: real)
    requires n < |events|
  {
    events[n] == Arrive(CLIENT, later) && SameDecision(cfg, events, maxAge, n)
  }

  /** The second burst: the pruned limiter grants all of it; the other one only as long as its
      refill lasts. */
  lemma {:induction false} SecondBurst(cfg: Limits, events: seq<Event>, maxAge: real, k: nat, burst: nat, n: nat, later: real,
                                       level: real, more: nat)
    requires cfg.burst == burst as real && n + more <= burst && k + more <= |events| && level <= cfg.burst
    requires InBurst(cfg, events, maxAge, k, burst, n, later, level)
    requires forall m | k <= m < k + more :: SameAt(cfg, events, maxAge, m, later)
    ensures InBurst(cfg, events, maxAge, k + more, burst, n + more, later, level - more as real)
    decreases more
  {
    if more > 0 {
      BurstGoesOn(cfg, events, maxAge, k, burst, n, later, level);
      SecondBurst(cfg, events, maxAge, k + 1, burst, n + 1, later, level - 1.0, more - 1);
    }
  }

  lemma BurstGoesOn(cfg: Limits, events: seq<Event>, maxAge: real, k: nat, burst: nat, n: nat, later: real, level: real)
    requires cfg.burst == burst as real && n < burst && k < |events| && SameAt(cfg, events, maxAge, k, later)
    requires level <= cfg.burst && InBurst(cfg, events, maxAge, k, burst, n, later, level)
    ensures InBurst(cfg, events, maxAge, k + 1, burst, n + 1, later, level - 1.0)
  {
    NoTimeNoRefill(cfg, later);
    NextOfBurst(cfg, events, maxAge, k, burst, n + 1, level, later, later, level);
  }

  lemma NextOfBurst(cfg: Limits, events: seq<Event>, maxAge: real, k: nat, burst: nat, n: nat,
                    tokens: real, last: real, later: real, level: real)
    requires cfg.burst == burst as real && 1 <= n <= burst && k < |events| && events[k] == Arrive(CLIENT, later)
    requires level == tokens + Refill(cfg, last, later) && level <= cfg.burst
    requires WithPruning(cfg, events[..k], maxAge) == Drawn(burst, n - 1, later)
    requires WithoutPruning(cfg, events[..k]) == Only(tokens, last)
    requires SameDecision(cfg, events, maxAge, k)
    ensures WithPruning(cfg, events[..k + 1], maxAge) == Drawn(burst, n, later)
    ensures WithoutPruning(cfg, events[..k + 1]) == Only(level - 1.0, later)
  {
    GrantedAlike(cfg, burst, later, n, tokens, last, level);
    PrefixStep(cfg, events, maxAge, k);
  }

  lemma GrantedAlike(cfg: Limits, burst: nat, later: real, n: nat, tokens: real, last: real, level: real)
    requires cfg.burst == burst as real && 1 <= n <= burst
    requires level == tokens + Refill(cfg, last, later) && level <= cfg.burst
    ensures (Grants(cfg, Drawn(burst, n - 1, later), CLIENT, later) <==> Grants(cfg, Only(tokens, last), CLIENT, later)) ==>
      && AfterCall(cfg, Drawn(burst, n - 1, later), CLIENT, later) == Drawn(burst, n, later)
      && AfterCall(cfg, Only(tokens, last), CLIENT, later) == Only(level - 1.0, later)
  {
    CallOnOnly(cfg, tokens, last, later, level);
    DrawOnce(cfg, burst, n - 1, later);
  }

  lemma AfterThePrune(cfg: Limits, burst: nat, later: real, maxAge: real)
    requires cfg.burst == burst as real && burst >= 1 && maxAge < later
    ensures var events := TwoBursts(burst, later);
      && WithPruning(cfg, events[..burst + 1], maxAge) == map[]
      && WithoutPruning(cfg, events[..burst + 1]) == Only(0.0, 0.0)
  {
    FirstBurst(cfg, burst, later, maxAge, burst);
    PrefixStep(cfg, TwoBursts(burst, later), maxAge, burst);
  }

  lemma LastCallDiffers(cfg: Limits, burst: nat, later: real, maxAge: real, refill: real)
    requires cfg.burst == burst as real && burst >= 1 && maxAge < later && Refill(cfg, 0.0, later) == refill < cfg.burst
    requires forall m | burst < m < 2 * burst :: SameAt(cfg, TwoBursts(burst, later), maxAge, m, later)
    ensures !SameDecision(cfg, TwoBursts(burst, later), maxAge, 2 * burst)
  {
    AfterThePrune(cfg, burst, later, maxAge);
    DrawOnce(cfg, burst, burst - 1, later);
    if burst == 1 {
      CallOnOnly(cfg, 0.0, 0.0, later, refill);
    } else {
      var events := TwoBursts(burst, later);
      assert SameAt(cfg, events, maxAge, burst + 1, later);
      NextOfBurst(cfg, events, maxAge, burst + 1, burst, 1, 0.0, 0.0, later, refill);
      SecondBurst(cfg, events, maxAge, burst + 2, burst, 1, later, refill - 1.0, burst - 2);
      NoTimeNoRefill(cfg, later);
      CallOnOnly(cfg, refill - (burst - 1) as real, later, later, refill - (burst - 1) as real);
    }
  }

  ghost predicate Unobservable(cfg: Limits, maxAge: real) {
    forall events: seq<Event>, n: nat | EventsOrdered(events) && n < |events| :: SameDecision(cfg, events, maxAge, n)
  }

  /** A drained bucket that is pruned before it would be full again is noticed. */
  lemma PruningShows(cfg: Limits, burst: nat, later: real, maxAge: real)
    requires cfg.burst == burst as real && burst >= 1 && 0.0 <= later && maxAge < later && Refill(cfg, 0.0, later) < cfg.burst
    ensures !Unobservable(cfg, maxAge)
  {
    var events := TwoBursts(burst, later);
    if Unobservable(cfg, maxAge) {
      forall n | burst < n < 2 * burst ensures SameAt(cfg, events, maxAge, n, later) {
        assert SameDecision(cfg, events, maxAge, n);
      }
      LastCallDiffers(cfg, burst, later, maxAge, Refill(cfg, 0.0, later));
    }
  }

  /** Without a burst a client gets its first call only, and a prune gives it another first call. */
  lemma PruningShowsWithoutBurst(cfg: Limits, maxAge: real)
    requires cfg.burst < 1.0
    ensures !Unobservable(cfg, maxAge)
  {
    var later := if maxAge < 0.0 then 0.0 else maxAge + 1.0;
    var events := TwoBursts(1, later);
    assert events[..0] == [];
    PrefixStep(cfg, events, maxAge, 0);
    PrefixStep(cfg, events, maxAge, 1);
    assert WithPruning(cfg, events[..2], maxAge) == map[];
    var full := WithoutPruning(cfg, events[..2]);
    assert CLIENT in full && Refilled(cfg, full[CLIENT], later) <= cfg.burst;
    assert !SameDecision(cfg, events, maxAge, 2);
  }

  /** A time after `maxAge` at which a drained bucket is not yet full. */
  lemma NotYetFull(cfg: Limits, maxAge: real) returns (later: real)
    requires cfg.burst >= 1.0 && (cfg.rate < 0.0 || maxAge * cfg.rate < cfg.burst)
    ensures 0.0 <= later && maxAge < later && Refill(cfg, 0.0, later) < cfg.burst
  {
    var start := if maxAge < 0.0 then 0.0 else maxAge;
    if cfg.rate <= 0.0 {
      later := start + 1.0;
      ScaledAtMost(0.0 - cfg.rate, 0.0, later);
    } else {
      assert start * cfg.rate < cfg.burst;
      later := SlightlyLater(start, cfg.rate, cfg.burst);
    }
  }

  lemma SlightlyLater(start: real, rate: real, burst: real) returns (later: real)
    requires rate > 0.0 && start * rate < burst
    ensures start < later && later * rate < burst
  {
    var slack := (burst - start * rate) / (2.0 * rate);
    assert slack * rate == (burst - start * rate) / 2.0;
    assert slack > 0.0;
    later := start + slack;
    assert later * rate == start * rate + slack * rate;
  }

  /** For all figures the constructor takes: pruning buckets idle for longer than `maxAge` can
      never be noticed exactly when there is a burst, the rate is not negative, and a drained
      bucket is full again after `maxAge`. */
  lemma PruningUnobservableIff(cfg: Limits, burst: int, maxAge: real)
    requires cfg.burst == burst as real
    ensures Unobservable(cfg, maxAge) <==> burst >= 1 && cfg.rate >= 0.0 && maxAge * cfg.rate >= cfg.burst
  {
    if burst < 1 {
      PruningShowsWithoutBurst(cfg, maxAge);
    } else if cfg.rate >= 0.0 && maxAge * cfg.rate >= cfg.burst {
      forall events: seq<Event>, n: nat | EventsOrdered(events) && n < |events| ensures SameDecision(cfg, events, maxAge, n) {
        PruningUnobservable(cfg, events, maxAge, n);
      }
    } else {
      var later := NotYetFull(cfg, maxAge);
      PruningShows(cfg, burst, later, maxAge);
    }
  }

  // ---------------------------------------------------------------- the deployed limiter

  const GENERAL_LIMITS := Limits(20.0, 40.0)
  const PRUNE_INTERVAL_SECONDS := 600.0

  /** The general limiter as main starts it: 20 per second, burst 40, pruned with ten times a
      ten-minute interval. */
  lemma DeployedPruningUnobservable(events: seq<Event>, n: nat)
    requires EventsOrdered(events) && n < |events|
    ensures SameDecision(GENERAL_LIMITS, events, PRUNE_INTERVAL_SECONDS * 10.0, n)
    ensures GENERAL_LIMITS == Limits(20.0, 40.0) && PRUNE_INTERVAL_SECONDS * 10.0 == 6000.0
  {
    PruningUnobservable(GENERAL_LIMITS, events, PRUNE_INTERVAL_SECONDS * 10.0, n);
  }
}
