/** The token-bucket limiter, over real-valued time. */
module RateLimit {
  import opened Outcomes

  datatype Bucket = Bucket(tokens: real, updatedAt: real)

  datatype Decision = Decision(allowed: bool, remaining: int, retryAfter: int)

  datatype Error = CostNotPositive

  function Min(a: real, b: real): real {
    if a <= b then a else b
  }

  /** The tokens that flow in over some time. */
  function Flow(time: real, rate: real): real {
    time * rate
  }

  /** The time until so many tokens have flowed in. */
  function TimeFor(tokens: real, rate: real): real
    requires rate > 0.0
  {
    tokens / rate
  }

  lemma FlowIsPositive(time: real, rate: real)
    requires rate > 0.0
    ensures time >= 0.0 ==> Flow(time, rate) >= 0.0
    ensures time > 0.0 ==> Flow(time, rate) > 0.0
  {
  }

  lemma FlowAdds(a: real, b: real, rate: real)
    ensures Flow(a, rate) + Flow(b, rate) == Flow(a + b, rate)
  {
  }

  lemma FlowGrows(a: real, b: real, rate: real)
    requires rate > 0.0 && a <= b
    ensures Flow(a, rate) <= Flow(b, rate) && (a < b ==> Flow(a, rate) < Flow(b, rate))
  {
    FlowIsPositive(b - a, rate);
    FlowAdds(a, b - a, rate);
  }

  lemma TimeForFlow(tokens: real, rate: real)
    requires rate > 0.0
    ensures Flow(TimeFor(tokens, rate), rate) == tokens
  {
  }

  /** The tokens in a bucket at a later reading of the clock; a clock that went back adds none. */
  function Refilled(bucket: Bucket, capacity: int, rate: real, now: real): real {
    var elapsed := if now - bucket.updatedAt > 0.0 then now - bucket.updatedAt else 0.0;
    Min(capacity as real, bucket.tokens + Flow(elapsed, rate))
  }

  /** The bucket and the decision after one request. */
  function Served(bucket: Bucket, capacity: int, rate: real, cost: int, now: real): (Bucket, Decision)
    requires rate > 0.0
  {
    var tokens := Refilled(bucket, capacity, rate, now);
    if tokens >= cost as real then
      (Bucket(tokens - cost as real, now), Decision(true, (tokens - cost as real).Floor, 0))
    else
      (Bucket(tokens, now), Decision(false, tokens.Floor, TimeFor(cost as real - tokens, rate).Floor + 1))
  }

  predicate Filled(bucket: Bucket, capacity: int) {
    0.0 <= bucket.tokens <= capacity as real
  }

  class TokenBucketLimiter {
    const capacity: int
    const rate: real
    var buckets: map<string, Bucket>

    /** Every bucket holds between nothing and the capacity. */
    ghost predicate Valid()
      reads this
    {
      capacity > 0 && rate > 0.0 && forall key | key in buckets :: Filled(buckets[key], capacity)
    }

    constructor (capacity: int, rate: real)
      requires capacity > 0 && rate > 0.0
      ensures Valid() && this.capacity == capacity && this.rate == rate && buckets == map[]
    {
      this.capacity, this.rate, this.buckets := capacity, rate, map[];
    }

    method Consume(key: string, cost: int, now: real) returns (answer: Result<Decision, Error>)
      requires Valid()
      modifies this
      ensures Valid()
      ensures answer.Failure? <==> cost <= 0
      ensures cost <= 0 ==> buckets == old(buckets)
      ensures cost > 0 ==>
        var (bucket,
          decision) := Served(if key in old(buckets) then old(buckets)[key]
          else Bucket(capacity as real, now), capacity, rate, cost, now);
        answer == Success(decision) && buckets == old(buckets)[key := bucket]
    {
      hide Flow, TimeFor;
      if cost <= 0 {
        return Failure(CostNotPositive);
      }
      if key !in buckets {
        buckets := buckets[key := Bucket(capacity as real, now)];
      }
      var bucket := buckets[key];
      ServedBalance(bucket, capacity, rate, cost, now);
      var elapsed := if now - bucket.updatedAt > 0.0 then now - bucket.updatedAt else 0.0;
      bucket := Bucket(Min(capacity as real, bucket.tokens + Flow(elapsed, rate)), now);
      if bucket.tokens >= cost as real {
        bucket := bucket.(tokens := bucket.tokens - cost as real);
        buckets := buckets[key := bucket];
        return Success(Decision(true, bucket.tokens.Floor, 0));
      }
      buckets := buckets[key := bucket];
      var wait := TimeFor(cost as real - bucket.tokens, rate).Floor + 1;
      return Success(Decision(false, bucket.tokens.Floor, wait));
    }
  }

  // ---- Runs on one key ----

  datatype Request = Request(cost: int, now: real)

  /** `buckets[i + 1]` and `decisions[i]` are what request `i` leaves and answers. */
  ghost predicate IsRun(
    buckets: seq<Bucket>, requests: seq<Request>, decisions: seq<Decision>, capacity: int, rate: real)
  {
    && capacity > 0 && rate > 0.0
    && |buckets| == |requests| + 1 && |decisions| == |requests| && Filled(buckets[0], capacity)
    && (forall i {:trigger requests[i]} | 0 <= i < |requests| ::
      requests[i].cost > 0
      && (buckets[i + 1], decisions[i]) == Served(buckets[i], capacity, rate, requests[i].cost, requests[i].now))
  }

  /** The time the clock moved forward from request `i` to request `j - 1`, steps back not counted. */
  function ForwardTime(requests: seq<Request>, i: nat, j: nat): (r: real)
    requires i < j <= |requests|
    ensures r >= 0.0
  {
    if j == i + 1 then 0.0 else
    var step := requests[j - 1].now - requests[j - 2].now;
    ForwardTime(requests, i, j - 1) + if step > 0.0 then step else 0.0
  }

  /** The clock does not go back from request `i` to request `j - 1`. */
  ghost predicate ClockedIn(requests: seq<Request>, i: nat, j: nat)
    requires j <= |requests|
  {
    forall k | i <= k < j - 1 :: requests[k].now <= requests[k + 1].now
  }

  /** Forward time exceeds the span of a window exactly if the clock goes back within it. */
  lemma {:induction false} ForwardTimeIsSpan(requests: seq<Request>, i: nat, j: nat)
    requires i < j <= |requests|
    ensures ForwardTime(requests, i, j) >= requests[j - 1].now - requests[i].now
    ensures ForwardTime(requests, i, j) == requests[j - 1].now - requests[i].now <==> ClockedIn(requests, i, j)
  {
    if j > i + 1 {
      ForwardTimeIsSpan(requests, i, j - 1);
      ClockedStep(requests, i, j);
    }
  }

  lemma ClockedStep(requests: seq<Request>, i: nat, j: nat)
    requires i + 1 < j <= |requests|
    ensures ClockedIn(requests, i, j) <==>
      ClockedIn(requests, i, j - 1) && requests[j - 2].now <= requests[j - 1].now
  {
    if ClockedIn(requests, i, j) {
      assert requests[j - 2].now <= requests[j - 2 + 1].now;
    }
    if ClockedIn(requests, i, j - 1) && requests[j - 2].now <= requests[j - 1].now {
      forall k | i <= k < j - 1 ensures requests[k].now <= requests[k + 1].now {
        assert k < j - 2 || k == j - 2;
      }
    }
  }

  /** The cost admitted by requests `i` to `j - 1`. */
  function Admitted(requests: seq<Request>, decisions: seq<Decision>, i: nat, j: nat): int
    requires i <= j <= |requests| && |decisions| == |requests|
  {
    if i == j then 0
      else Admitted(requests, decisions, i, j - 1) + if decisions[j - 1].allowed then requests[j - 1].cost else 0
  }

  /**
   A request neither overdraws nor overfills, and cost plus tokens left never exceeds what was there and what
   flowed in.
   */
  lemma ServedBalance(bucket: Bucket, capacity: int, rate: real, cost: int, now: real)
    requires rate > 0.0 && capacity > 0 && cost > 0 && Filled(bucket, capacity)
    ensures var (after, decision) := Served(bucket, capacity, rate, cost, now);
      var spent := if decision.allowed then cost as real else 0.0;
      && Filled(after, capacity) && after.updatedAt == now
      && after.tokens + spent <= capacity as real
      && after.tokens + spent
      <= bucket.tokens + Flow(if now > bucket.updatedAt then now - bucket.updatedAt else 0.0, rate)
  {
    var elapsed := if now - bucket.updatedAt > 0.0 then now - bucket.updatedAt else 0.0;
    FlowIsPositive(elapsed, rate);
  }

  lemma {:induction false} RunFilled(
    buckets: seq<Bucket>, requests: seq<Request>, decisions: seq<Decision>, capacity: int, rate: real, n: nat)
    requires IsRun(buckets, requests, decisions, capacity, rate) && n <= |requests|
    ensures Filled(buckets[n], capacity) && (n > 0 ==> buckets[n].updatedAt == requests[n - 1].now)
  {
    if n > 0 {
      RunFilled(buckets, requests, decisions, capacity, rate, n - 1);
      ServedBalance(buckets[n - 1], capacity, rate, requests[n - 1].cost, requests[n - 1].now);
      assert (buckets[n - 1 + 1], decisions[n - 1]) ==
        Served(buckets[n - 1], capacity, rate, requests[n - 1].cost, requests[n - 1].now);
    }
  }

  /**
   Whatever the clock does, a window admits and leaves at most a full bucket and the refill while the clock
   moved forward.
   */
  lemma {:induction false} WindowBalance(
    buckets: seq<Bucket>, requests: seq<Request>, decisions: seq<Decision>, capacity: int, rate: real, i: nat, j: nat)
    requires IsRun(buckets, requests, decisions, capacity, rate) && i < j <= |requests|
    ensures Admitted(requests, decisions, i, j) as real + buckets[j].tokens
      <= capacity as real + Flow(ForwardTime(requests, i, j), rate)
    decreases j
  {
    hide Flow, TimeFor, Served;
    RunFilled(buckets, requests, decisions, capacity, rate, j - 1);
    var last := requests[j - 1];
    ServedBalance(buckets[j - 1], capacity, rate, last.cost, last.now);
    assert (buckets[j - 1 + 1], decisions[j - 1]) == Served(buckets[j - 1], capacity, rate, last.cost, last.now);
    if i == j - 1 {
      FlowIsPositive(0.0, rate);
    } else {
      WindowBalance(buckets, requests, decisions, capacity, rate, i, j - 1);
      var step := last.now - requests[j - 2].now;
      FlowAdds(ForwardTime(requests, i, j - 1), if step > 0.0 then step else 0.0, rate);
    }
  }

  /**
   If the clock does not go back within a window of length `span`, the cost admitted in it is at most the
   capacity plus the refill over it.
   */
  lemma WindowBound(
    buckets: seq<Bucket>, requests: seq<Request>, decisions: seq<Decision>, capacity: int, rate: real, i: nat, j: nat,
    span: real)
    requires IsRun(buckets, requests, decisions, capacity, rate) && i < j <= |requests| && ClockedIn(requests, i, j)
    requires requests[j - 1].now - requests[i].now <= span
    ensures Admitted(requests, decisions, i, j) as real <= capacity as real + Flow(span, rate)
  {
    hide Served, TimeFor, IsRun;
    WindowBalance(buckets, requests, decisions, capacity, rate, i, j);
    ForwardTimeIsSpan(requests, i, j);
    RunFilled(buckets, requests, decisions, capacity, rate, j);
    RateIsPositive(buckets, requests, decisions, capacity, rate);
    FlowGrows(requests[j - 1].now - requests[i].now, span, rate);
  }

  lemma RateIsPositive(
    buckets: seq<Bucket>, requests: seq<Request>, decisions: seq<Decision>, capacity: int, rate: real)
    requires IsRun(buckets, requests, decisions, capacity, rate)
    ensures rate > 0.0 && |buckets| == |requests| + 1 && |decisions| == |requests|
  {
  }

  /** What a denial means: too few tokens now, and the advice rounds the exact waiting time up. */
  lemma DenialMeans(bucket: Bucket, capacity: int, rate: real, cost: int, now: real)
    requires rate > 0.0 && capacity > 0 && cost > 0 && Filled(bucket, capacity)
    requires !Served(bucket, capacity, rate, cost, now).1.allowed
    ensures var (after, decision) := Served(bucket, capacity, rate, cost, now);
      var exact := TimeFor(cost as real - after.tokens, rate);
      && Filled(after, capacity) && after.updatedAt == now && exact > 0.0
      && Flow(exact, rate) == cost as real - after.tokens
      && exact < decision.retryAfter as real <= exact + 1.0
  {
    ServedBalance(bucket, capacity, rate, cost, now);
    hide Flow, TimeFor;
    var (after, decision) := Served(bucket, capacity, rate, cost, now);
    var exact := TimeFor(cost as real - after.tokens, rate);
    TimeForFlow(cost as real - after.tokens, rate);
    if exact <= 0.0 {
      FlowGrows(exact, 0.0, rate);
      FlowAdds(0.0, 0.0, rate);
    }
  }

  /**
   A denied request retried later, with nothing consumed in between, succeeds exactly if enough flowed in and
   the cost fits the bucket.
   */
  lemma RetryMeans(bucket: Bucket, capacity: int, rate: real, cost: int, now: real, later: real)
    requires rate > 0.0 && capacity > 0 && cost > 0 && Filled(bucket, capacity) && later >= now
    requires !Served(bucket, capacity, rate, cost, now).1.allowed
    ensures var after := Served(bucket, capacity, rate, cost, now).0;
      Served(after, capacity, rate, cost, later).1.allowed <==>
        (cost <= capacity && later - now >= TimeFor(cost as real - after.tokens, rate))
  {
    DenialMeans(bucket, capacity, rate, cost, now);
    hide Flow, TimeFor;
    var after := Served(bucket, capacity, rate, cost, now).0;
    var exact := TimeFor(cost as real - after.tokens, rate);
    if later - now >= exact {
      FlowGrows(exact, later - now, rate);
    } else {
      FlowGrows(later - now, exact, rate);
    }
    FlowAdds(0.0, 0.0, rate);
  }

  /** The advice is sufficient: after `retryAfter` seconds the retry succeeds exactly if its cost fits the bucket. */
  lemma RetrySucceeds(bucket: Bucket, capacity: int, rate: real, cost: int, now: real, later: real)
    requires rate > 0.0 && capacity > 0 && cost > 0 && Filled(bucket, capacity)
    requires !Served(bucket, capacity, rate, cost, now).1.allowed
    requires later >= now + Served(bucket, capacity, rate, cost, now).1.retryAfter as real
    ensures Served(Served(bucket, capacity, rate, cost, now).0, capacity, rate, cost, later).1.allowed <==>
      cost <= capacity
  {
    hide Served, Flow, TimeFor;
    DenialMeans(bucket, capacity, rate, cost, now);
    RetryMeans(bucket, capacity, rate, cost, now, later);
  }

  /** The advice is at most one second late: a retry more than a second earlier is denied. */
  lemma EarlyRetryFails(bucket: Bucket, capacity: int, rate: real, cost: int, now: real, later: real)
    requires rate > 0.0 && capacity > 0 && cost > 0 && Filled(bucket, capacity)
    requires !Served(bucket, capacity, rate, cost, now).1.allowed
    requires now <= later < now + (Served(bucket, capacity, rate, cost, now).1.retryAfter - 1) as real
    ensures !Served(Served(bucket, capacity, rate, cost, now).0, capacity, rate, cost, later).1.allowed
  {
    hide Served, Flow, TimeFor;
    DenialMeans(bucket, capacity, rate, cost, now);
    RetryMeans(bucket, capacity, rate, cost, now, later);
  }

  // ---- Exactly when a request is admitted ----

  /** The tokens in the bucket when request `j` is decided. */
  function Available(buckets: seq<Bucket>, requests: seq<Request>, capacity: int, rate: real, j: nat): real
    requires j < |requests| && j < |buckets|
  {
    Refilled(buckets[j], capacity, rate, requests[j].now)
  }

  /** What requests `i` to `j - 1` leave of a full bucket and of the refill up to request `j`. */
  function Headroom(
    requests: seq<Request>, decisions: seq<Decision>, capacity: int, rate: real, i: nat, j: nat): real
    requires i <= j < |requests| && |decisions| == |requests|
  {
    capacity as real + Flow(ForwardTime(requests, i, j + 1), rate) - Admitted(requests, decisions, i, j) as real
  }

  lemma HeadroomStep(requests: seq<Request>, decisions: seq<Decision>, capacity: int, rate: real, i: nat, j: nat)
    requires i < j < |requests| && |decisions| == |requests|
    ensures var step := requests[j].now - requests[j - 1].now;
      Headroom(requests, decisions, capacity, rate, i, j)
      == Headroom(requests, decisions, capacity, rate, i, j - 1) + Flow(if step > 0.0 then step else 0.0, rate)
      - (if decisions[j - 1].allowed then requests[j - 1].cost else 0) as real
  {
    var step := requests[j].now - requests[j - 1].now;
    FlowAdds(ForwardTime(requests, i, j), if step > 0.0 then step else 0.0, rate);
  }

  lemma HeadroomNow(requests: seq<Request>, decisions: seq<Decision>, capacity: int, rate: real, j: nat)
    requires j < |requests| && |decisions| == |requests|
    ensures Headroom(requests, decisions, capacity, rate, j, j) == capacity as real
  {
    FlowAdds(0.0, 0.0, rate);
  }

  /** One request takes exactly its cost if admitted, and nothing if denied. */
  lemma AvailableStep(
    buckets: seq<Bucket>, requests: seq<Request>, decisions: seq<Decision>, capacity: int, rate: real, j: nat)
    requires IsRun(buckets, requests, decisions, capacity, rate) && 0 < j < |requests|
    ensures var step := requests[j].now - requests[j - 1].now;
      var spent := (if decisions[j - 1].allowed then requests[j - 1].cost else 0) as real;
      Available(buckets, requests, capacity, rate, j) == Min(capacity as real,
        Available(buckets, requests, capacity, rate, j - 1) - spent + Flow(if step > 0.0 then step else 0.0, rate))
  {
    hide Flow;
    RunFilled(buckets, requests, decisions, capacity, rate, j);
    assert (buckets[j - 1 + 1], decisions[j - 1]) ==
      Served(buckets[j - 1], capacity, rate, requests[j - 1].cost, requests[j - 1].now);
  }

  /** From a full bucket, the tokens available are the least headroom over all windows that end here. */
  lemma {:induction false} AvailableIsLeast(
    buckets: seq<Bucket>, requests: seq<Request>, decisions: seq<Decision>, capacity: int, rate: real, j: nat)
    returns (start: nat)
    requires IsRun(buckets, requests, decisions, capacity, rate) && j < |requests|
    requires buckets[0].tokens == capacity as real
    ensures forall i: nat | i <= j ::
      Available(buckets, requests, capacity, rate, j) <= Headroom(requests, decisions, capacity, rate, i, j)
    ensures start <= j
    ensures Available(buckets, requests, capacity, rate, j) == Headroom(requests, decisions, capacity, rate, start, j)
  {
    start := j;
    HeadroomNow(requests, decisions, capacity, rate, j);
    if j == 0 {
      FullStaysFull(buckets, requests, decisions, capacity, rate);
    } else {
      var before := AvailableIsLeast(buckets, requests, decisions, capacity, rate, j - 1);
      AvailableStep(buckets, requests, decisions, capacity, rate, j);
      hide Available, Headroom, Flow, IsRun;
      forall i: nat | i < j
        ensures Available(buckets, requests, capacity, rate, j) <= Headroom(requests, decisions, capacity, rate, i, j)
      {
        HeadroomStep(requests, decisions, capacity, rate, i, j);
      }
      HeadroomStep(requests, decisions, capacity, rate, before, j);
      if Available(buckets, requests, capacity, rate, j) != capacity as real {
        start := before;
      }
    }
  }

  lemma FullStaysFull(
    buckets: seq<Bucket>, requests: seq<Request>, decisions: seq<Decision>, capacity: int, rate: real)
    requires IsRun(buckets, requests, decisions, capacity, rate) && 0 < |requests|
    requires buckets[0].tokens == capacity as real
    ensures Available(buckets, requests, capacity, rate, 0) == capacity as real
  {
    var elapsed := requests[0].now - buckets[0].updatedAt;
    FlowIsPositive(if elapsed > 0.0 then elapsed else 0.0, rate);
  }

  /** Requests `i` to `j` together fit a full bucket and the refill between them. */
  predicate Fits(requests: seq<Request>, decisions: seq<Decision>, capacity: int, rate: real, i: nat, j: nat)
    requires i <= j < |requests| && |decisions| == |requests|
  {
    Admitted(requests, decisions, i, j) as real + requests[j].cost as real
      <= capacity as real + Flow(ForwardTime(requests, i, j + 1), rate)
  }

  lemma FitsHeadroom(requests: seq<Request>, decisions: seq<Decision>, capacity: int, rate: real, i: nat, j: nat)
    requires i <= j < |requests| && |decisions| == |requests|
    ensures Fits(requests, decisions, capacity, rate, i, j) <==>
      requests[j].cost as real <= Headroom(requests, decisions, capacity, rate, i, j)
  {
  }

  /**
   From a full bucket a request is admitted exactly if no window that ends with it would take more than the
   capacity and what flowed in during the window.
   */
  lemma AdmittedIff(
    buckets: seq<Bucket>, requests: seq<Request>, decisions: seq<Decision>, capacity: int, rate: real, j: nat)
    requires IsRun(buckets, requests, decisions, capacity, rate) && j < |requests|
    requires buckets[0].tokens == capacity as real
    ensures decisions[j].allowed <==>
      forall i: nat | i <= j :: Fits(requests, decisions, capacity, rate, i, j)
  {
    hide Fits, Headroom, Available, Served;
    var start := AvailableIsLeast(buckets, requests, decisions, capacity, rate, j);
    DecidedByTokens(buckets, requests, decisions, capacity, rate, j);
    FitsHeadroom(requests, decisions, capacity, rate, start, j);
    if decisions[j].allowed {
      forall i: nat | i <= j ensures Fits(requests, decisions, capacity, rate, i, j) {
        FitsHeadroom(requests, decisions, capacity, rate, i, j);
      }
    }
  }

  lemma DecidedByTokens(
    buckets: seq<Bucket>, requests: seq<Request>, decisions: seq<Decision>, capacity: int, rate: real, j: nat)
    requires IsRun(buckets, requests, decisions, capacity, rate) && j < |requests|
    ensures decisions[j].allowed <==> Available(buckets, requests, capacity, rate, j) >= requests[j].cost as real
  {
    assert (buckets[j + 1], decisions[j]) ==
      Served(buckets[j], capacity, rate, requests[j].cost, requests[j].now);
  }

  /** The answer names the largest cost that would be admitted at once. */
  lemma RemainingIsHeadroom(bucket: Bucket, capacity: int, rate: real, cost: int, now: real, next: int)
    requires rate > 0.0 && capacity > 0 && cost > 0 && next > 0 && Filled(bucket, capacity)
    ensures var (after, decision) := Served(bucket, capacity, rate, cost, now);
      Served(after, capacity, rate, next, now).1.allowed <==> next <= decision.remaining
  {
    ServedBalance(bucket, capacity, rate, cost, now);
    FlowAdds(0.0, 0.0, rate);
  }

  // ---- Which clocks keep the bound ----

  function Times(requests: seq<Request>): (r: seq<real>)
    ensures |r| == |requests|
  {
    seq(|requests|, i requires 0 <= i < |requests| => requests[i].now)
  }

  /**
   With these clock readings, no limiter and no costs admit more, in a window between two readings in order,
   than the capacity and the refill over it.
   */
  ghost predicate BoundHolds(times: seq<real>) {
    forall buckets, requests, decisions, capacity, rate, i: nat, j: nat |
      && IsRun(buckets, requests, decisions, capacity, rate) && Times(requests) == times
      && i < j <= |requests| && times[i] <= times[j - 1] ::
      Admitted(requests, decisions, i, j) as real <= capacity as real + Flow(times[j - 1] - times[i], rate)
  }

  /** The clock never goes back and then returns to a reading it had reached before. */
  ghost predicate NoReturn(times: seq<real>) {
    forall i: nat, k: nat, j: nat | i <= k < j < |times| && times[i] <= times[j] :: times[k] <= times[k + 1]
  }

  /** Requests at these times: cost 1 for requests `i` and `j`, a cost no bucket of one token can pay for the others. */
  function TwoPayable(times: seq<real>, i: nat, j: nat): (r: seq<Request>)
    ensures |r| == |times| && Times(r) == times
  {
    seq(|times|, k requires 0 <= k < |times| => Request(if k == i || k == j then 1 else 2, times[k]))
  }

  /** Every list of requests can be served. */
  lemma {:induction false} RunExists(first: Bucket, requests: seq<Request>, capacity: int, rate: real)
    returns (buckets: seq<Bucket>, decisions: seq<Decision>)
    requires capacity > 0 && rate > 0.0 && Filled(first, capacity)
    requires forall k | 0 <= k < |requests| :: requests[k].cost > 0
    ensures IsRun(buckets, requests, decisions, capacity, rate) && buckets[0] == first
  {
    hide Served;
    if requests == [] {
      buckets, decisions := [first], [];
    } else {
      var n := |requests| - 1;
      buckets, decisions := RunExists(first, requests[..n], capacity, rate);
      var (after, decision) := Served(buckets[n], capacity, rate, requests[n].cost, requests[n].now);
      RunGrows(buckets, requests[..n], decisions, capacity, rate, requests[n]);
      assert requests[..n] + [requests[n]] == requests;
      buckets, decisions := buckets + [after], decisions + [decision];
    }
  }

  lemma RunGrows(
    buckets: seq<Bucket>, requests: seq<Request>, decisions: seq<Decision>, capacity: int, rate: real, next: Request)
    requires IsRun(buckets, requests, decisions, capacity, rate) && next.cost > 0
    ensures var (after, decision) := Served(buckets[|requests|], capacity, rate, next.cost, next.now);
      IsRun(buckets + [after], requests + [next], decisions + [decision], capacity, rate)
  {
    hide Served;
    var (after, decision) := Served(buckets[|requests|], capacity, rate, next.cost, next.now);
    var bs, rs, ds := buckets + [after], requests + [next], decisions + [decision];
    forall k {:trigger rs[k]} | 0 <= k < |rs|
      ensures rs[k].cost > 0 && (bs[k + 1], ds[k]) == Served(bs[k], capacity, rate, rs[k].cost, rs[k].now)
    {
      if k < |requests| {
        assert rs[k] == requests[k] && bs[k] == buckets[k] && bs[k + 1] == buckets[k + 1] && ds[k] == decisions[k];
      }
    }
  }

  /** Until the first payable request the bucket of one token stays full. */
  lemma {:induction false} StaysFull(
    buckets: seq<Bucket>, decisions: seq<Decision>, times: seq<real>, rate: real, i: nat, j: nat, n: nat)
    requires n <= i < j < |times| && IsRun(buckets, TwoPayable(times, i, j), decisions, 1, rate)
    requires buckets[0].tokens == 1.0
    ensures buckets[n].tokens == 1.0
  {
    if n > 0 {
      var requests := TwoPayable(times, i, j);
      StaysFull(buckets, decisions, times, rate, i, j, n - 1);
      OneServed(buckets, requests, decisions, rate, n - 1);
      hide Served, IsRun;
      DeniedKeeps(buckets[n - 1], rate, times[n - 1]);
    }
  }

  lemma OneServed(buckets: seq<Bucket>, requests: seq<Request>, decisions: seq<Decision>, rate: real, n: nat)
    requires n < |requests| && IsRun(buckets, requests, decisions, 1, rate)
    ensures |buckets| == |requests| + 1 && |decisions| == |requests| && rate > 0.0
    ensures (buckets[n + 1], decisions[n]) == Served(buckets[n], 1, rate, requests[n].cost, requests[n].now)
    ensures Filled(buckets[n], 1)
  {
    assert requests[n].cost > 0;
    RunFilled(buckets, requests, decisions, 1, rate, n);
  }

  /** What a bucket of one token does: cost 2 is denied, cost 1 is admitted exactly from a full bucket. */
  lemma DeniedKeeps(bucket: Bucket, rate: real, now: real)
    requires rate > 0.0 && Filled(bucket, 1)
    ensures var step := if now > bucket.updatedAt then now - bucket.updatedAt else 0.0;
      var tokens := Min(1.0, bucket.tokens + Flow(step, rate));
      && Served(bucket, 1, rate, 2, now).0 == Bucket(tokens, now) && !Served(bucket, 1, rate, 2, now).1.allowed
      && (tokens == 1.0 ==> Served(bucket, 1, rate, 1, now).0 == Bucket(0.0, now)
                            && Served(bucket, 1, rate, 1, now).1.allowed)
      && (bucket.tokens == 1.0 ==> tokens == 1.0)
  {
    var step := if now > bucket.updatedAt then now - bucket.updatedAt else 0.0;
    FlowIsPositive(step, rate);
  }

  /** Forward time never shrinks as the window grows. */
  lemma {:induction false} ForwardTimeGrows(requests: seq<Request>, i: nat, n: nat, j: nat)
    requires i < n <= j <= |requests|
    ensures ForwardTime(requests, i, n) <= ForwardTime(requests, i, j)
    decreases j
  {
    if n < j {
      ForwardTimeGrows(requests, i, n, j - 1);
    }
  }

  /** After the first payable request the bucket holds exactly what flowed in since. */
  lemma {:induction false} RefillsBetween(
    buckets: seq<Bucket>, decisions: seq<Decision>, times: seq<real>, rate: real, i: nat, j: nat, n: nat)
    requires i < n <= j < |times| && IsRun(buckets, TwoPayable(times, i, j), decisions, 1, rate)
    requires buckets[0].tokens == 1.0 && Flow(ForwardTime(TwoPayable(times, i, j), i, j + 1), rate) == 1.0
    ensures buckets[n].tokens == Flow(ForwardTime(TwoPayable(times, i, j), i, n), rate)
    ensures Admitted(TwoPayable(times, i, j), decisions, i, n) == 1
    decreases n
  {
    hide Served, IsRun, Flow, ForwardTime, Admitted;
    var requests := TwoPayable(times, i, j);
    OneServed(buckets, requests, decisions, rate, n - 1);
    DeniedKeeps(buckets[n - 1], rate, times[n - 1]);
    if n == i + 1 {
      StaysFull(buckets, decisions, times, rate, i, j, i);
      OneRequest(requests, decisions, i);
      FlowAdds(0.0, 0.0, rate);
    } else {
      RefillsBetween(buckets, decisions, times, rate, i, j, n - 1);
      LastRequest(requests, decisions, i, n);
      OneServed(buckets, requests, decisions, rate, n - 2);
      RunFilled(buckets, requests, decisions, 1, rate, n - 1);
      assert times[n - 1] == requests[n - 1].now && times[n - 2] == requests[n - 2].now;
      var step := times[n - 1] - times[n - 2];
      FlowAdds(ForwardTime(requests, i, n - 1), if step > 0.0 then step else 0.0, rate);
      ForwardTimeGrows(requests, i, n, j + 1);
      FlowGrows(ForwardTime(requests, i, n), ForwardTime(requests, i, j + 1), rate);
    }
  }

  lemma OneRequest(requests: seq<Request>, decisions: seq<Decision>, i: nat)
    requires i < |requests| == |decisions|
    ensures ForwardTime(requests, i, i + 1) == 0.0
    ensures Admitted(requests, decisions, i, i + 1) == if decisions[i].allowed then requests[i].cost else 0
  {
    assert Admitted(requests, decisions, i, i) == 0;
  }

  lemma LastRequest(requests: seq<Request>, decisions: seq<Decision>, i: nat, n: nat)
    requires i + 1 < n <= |requests| == |decisions|
    ensures var step := requests[n - 1].now - requests[n - 2].now;
      ForwardTime(requests, i, n) == ForwardTime(requests, i, n - 1) + if step > 0.0 then step else 0.0
    ensures Admitted(requests, decisions, i, n)
      == Admitted(requests, decisions, i, n - 1) + if decisions[n - 1].allowed then requests[n - 1].cost else 0
  {
  }

  /** A clock that goes back within a window lets a bucket of one token pay twice in it. */
  lemma ReturnPaysTwice(times: seq<real>, i: nat, k: nat, j: nat)
    returns (buckets: seq<Bucket>, decisions: seq<Decision>, rate: real)
    requires i <= k < j < |times| && times[i] <= times[j] && times[k] > times[k + 1]
    ensures IsRun(buckets, TwoPayable(times, i, j), decisions, 1, rate) && |decisions| == |times|
    ensures Admitted(TwoPayable(times, i, j), decisions, i, j + 1) == 2 && Flow(times[j] - times[i], rate) < 1.0
  {
    hide Flow, TimeFor, Served, ForwardTime, Admitted, IsRun;
    var requests := TwoPayable(times, i, j);
    ForwardTimeIsSpan(requests, i, j + 1);
    assert requests[k].now > requests[k + 1].now;
    assert !ClockedIn(requests, i, j + 1);
    var forward := ForwardTime(requests, i, j + 1);
    rate := TimeFor(1.0, forward);
    RateOf(forward);
    buckets, decisions := RunExists(Bucket(1.0, times[0]), requests, 1, rate);
    RateIsPositive(buckets, requests, decisions, 1, rate);
    PaysTwice(buckets, decisions, times, rate, i, j);
    FlowGrows(times[j] - times[i], forward, rate);
  }

  lemma ReturnBreaksBound(times: seq<real>, i: nat, k: nat, j: nat)
    requires i <= k < j < |times| && times[i] <= times[j] && times[k] > times[k + 1]
    ensures !BoundHolds(times)
  {
    hide Flow, TimeFor, IsRun, Served, ForwardTime, Admitted;
    var requests := TwoPayable(times, i, j);
    var buckets, decisions, rate := ReturnPaysTwice(times, i, k, j);
    assert times[i] <= times[j + 1 - 1];
    assert !(Admitted(requests, decisions, i, j + 1) as real <= 1 as real + Flow(times[j + 1 - 1] - times[i], rate));
  }

  lemma RateOf(forward: real)
    requires forward > 0.0
    ensures TimeFor(1.0, forward) > 0.0 && Flow(forward, TimeFor(1.0, forward)) == 1.0
  {
  }

  lemma PaysTwice(
    buckets: seq<Bucket>, decisions: seq<Decision>, times: seq<real>, rate: real, i: nat, j: nat)
    requires i < j < |times| && IsRun(buckets, TwoPayable(times, i, j), decisions, 1, rate)
    requires buckets[0].tokens == 1.0 && Flow(ForwardTime(TwoPayable(times, i, j), i, j + 1), rate) == 1.0
    ensures |decisions| == |times| && Admitted(TwoPayable(times, i, j), decisions, i, j + 1) == 2
  {
    hide Served, IsRun, Flow, ForwardTime, Admitted;
    var requests := TwoPayable(times, i, j);
    RefillsBetween(buckets, decisions, times, rate, i, j, j);
    OneServed(buckets, requests, decisions, rate, j);
    RunFilled(buckets, requests, decisions, 1, rate, j);
    DeniedKeeps(buckets[j], rate, times[j]);
    LastRequest(requests, decisions, i, j + 1);
    assert times[j] == requests[j].now && times[j - 1] == requests[j - 1].now;
    var step := times[j] - times[j - 1];
    FlowAdds(ForwardTime(requests, i, j), if step > 0.0 then step else 0.0, rate);
  }

  /** The window bound holds for all limiters and costs exactly if the clock never goes back and then returns. */
  lemma BoundIffNoReturn(times: seq<real>)
    ensures BoundHolds(times) <==> NoReturn(times)
  {
    hide Flow, IsRun, Admitted, Times, ClockedIn;
    if NoReturn(times) {
      forall buckets, requests: seq<Request>, decisions, capacity, rate, i: nat, j: nat
        | && IsRun(buckets, requests, decisions, capacity, rate) && Times(requests) == times
          && i < j <= |requests| && times[i] <= times[j - 1]
        ensures |decisions| == |requests|
        ensures Admitted(requests, decisions, i, j) as real <= capacity as real + Flow(times[j - 1] - times[i], rate)
      {
        RateIsPositive(buckets, requests, decisions, capacity, rate);
        NoReturnIsClocked(requests, i, j);
        WindowBound(buckets, requests, decisions, capacity, rate, i, j, times[j - 1] - times[i]);
      }
    } else {
      var i: nat, k: nat, j: nat :| i <= k < j < |times| && times[i] <= times[j] && times[k] > times[k + 1];
      ReturnBreaksBound(times, i, k, j);
    }
  }

  lemma NoReturnIsClocked(requests: seq<Request>, i: nat, j: nat)
    requires NoReturn(Times(requests)) && i < j <= |requests| && Times(requests)[i] <= Times(requests)[j - 1]
    ensures ClockedIn(requests, i, j)
    ensures requests[j - 1].now - requests[i].now == Times(requests)[j - 1] - Times(requests)[i]
  {
    var times := Times(requests);
    forall k | i <= k < j - 1 ensures requests[k].now <= requests[k + 1].now {
      assert times[k] <= times[k + 1];
    }
  }

  /**
   Three requests for a full bucket: now, after the clock was set back by the refill time, and after it was
   set forward again.
   */
  function BackAndForth(capacity: int, rate: real, now: real): seq<Request>
    requires rate > 0.0
  {
    [Request(capacity, now), Request(capacity, now - TimeFor(capacity as real, rate)), Request(capacity, now)]
  }

  /**
   The bound needs its clock: for every limiter there is a run with a step back that admits twice the capacity
   within no time.
   */
  lemma BackwardClockRefills(capacity: int, rate: real, now: real)
    requires capacity > 0 && rate > 0.0
    ensures var requests := BackAndForth(capacity, rate, now);
      exists buckets, decisions ::
        && IsRun(buckets, requests, decisions, capacity, rate)
        && Admitted(requests, decisions, 0, 3) == 2 * capacity
        && Admitted(requests, decisions, 0, 3) as real > capacity as real + (requests[2].now - requests[0].now) * rate
  {
    var requests := BackAndForth(capacity, rate, now);
    var full, earlier := Bucket(capacity as real, now), requests[1].now;
    TimeForFlow(capacity as real, rate);
    FlowAdds(0.0, 0.0, rate);
    BackIsBefore(capacity, rate);
    hide Flow, TimeFor;
    assert Served(full, capacity, rate, capacity, now) == (Bucket(0.0, now), Decision(true, 0, 0));
    var second := Served(Bucket(0.0, now), capacity, rate, capacity, earlier);
    assert second.0 == Bucket(0.0, earlier) && !second.1.allowed;
    assert Served(Bucket(0.0, earlier), capacity, rate, capacity, now) == (Bucket(0.0, now), Decision(true, 0, 0));
    var buckets := [full, Bucket(0.0, now), Bucket(0.0, earlier), Bucket(0.0, now)];
    var decisions := [Decision(true, 0, 0), second.1, Decision(true, 0, 0)];
    assert IsRun(buckets, requests, decisions, capacity, rate);
    assert Admitted(requests, decisions, 0, 1) == capacity && Admitted(requests, decisions, 0, 2) == capacity;
  }

  lemma BackIsBefore(capacity: int, rate: real)
    requires capacity > 0 && rate > 0.0
    ensures TimeFor(capacity as real, rate) > 0.0
  {
  }
}
