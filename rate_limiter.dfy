/** The per-client admission logic of the server's receive loop, as pure
    functions over the two client maps, and what they guarantee. The class
    in module Server runs the same logic in place on two map fields and is
    proved to follow these functions. */
module RateLimiter {
  import opened Catalog

  /** A clock reading in ticks of 100 ns, the resolution of the source's
      date-time values. */
  type Time = int

  const TicksPerSecond: int := 10_000_000

  /** Admitted requests allowed per client before it is refused. */
  const MaxRequestsPerHour: int := 10

  /** One hour: the elapsed time beyond which a client's count is reset. */
  const RequestLimitPeriod: int := 3600 * TicksPerSecond

  /** Ten minutes. Declared alongside the other limits, but no code reads it. */
  const InactivityTimeout: int := 600 * TicksPerSecond

  /** The fixed reply to a refused request. */
  const LimitExceeded: string := "Request limit exceeded. Try again later."

  /** A remote peer, identified by IP address and port; equality is structural. */
  datatype EndPoint = EndPoint(address: seq<bv8>, port: nat)

  /** One received datagram: its sender, its decoded text, and the two clock
      readings the handler takes, the one it stores as the last activity
      time and the one it compares that stored time against. */
  datatype Request = Request(client: EndPoint, payload: string, touchedAt: Time, checkedAt: Time)

  /** The two process-wide maps: last activity time and request count per client. */
  datatype State = State(lastSeen: map<EndPoint, Time>, counts: map<EndPoint, int>)

  datatype StepResult = StepResult(state: State, reply: string)

  /** The state after a run of requests and the reply to each, in order. */
  datatype Trace = Trace(state: State, replies: seq<string>)

  /** The state when the server starts. */
  const Empty: State := State(map[], map[])

  /** What every reachable state satisfies: both maps hold the same clients,
      and every stored count lies between 1 and the limit. */
  ghost predicate WellFormed(s: State)
  {
    && s.lastSeen.Keys == s.counts.Keys
    && forall a :: a in s.counts ==> 1 <= s.counts[a] <= MaxRequestsPerHour
  }

  /** The time between the handler's two clock readings. */
  function Elapsed(q: Request): (d: int)
  {
    q.checkedAt - q.touchedAt
  }

  /** The client's stored count, or 0 for a client with no entry. */
  function CountOf(s: State, a: EndPoint): (c: int)
  {
    if a in s.counts then s.counts[a] else 0
  }

  function Min(x: int, y: int): (m: int)
  {
    if x <= y then x else y
  }

  /** The admission path: look up the price and count the request. */
  function Admit(s: State, q: Request): (r: StepResult)
    requires q.client in s.counts
  {
    StepResult(s.(counts := s.counts[q.client := s.counts[q.client] + 1]), GetPrice(q.payload))
  }

  /** Handles one request. The activity time is stored first, unconditionally;
      a client with no count gets a zero count; a known client whose stored
      time is more than one period behind the second clock reading has its count
      reset to zero; otherwise a known client at the limit is refused with the
      fixed message, and every request not refused is answered from the
      catalog and counted. */
  function Step(s: State, q: Request): (r: StepResult)
    // the activity time is recorded whatever the outcome
    ensures r.state.lastSeen == s.lastSeen[q.client := q.touchedAt]
    // a count entry exists afterwards for the sender and for nobody new
    ensures r.state.counts.Keys == s.counts.Keys + {q.client}
    // nobody else's count changes
    ensures forall a :: a in s.counts && a != q.client ==> r.state.counts[a] == s.counts[a]
    // first request ever: admitted, count 1
    ensures q.client !in s.counts ==>
      r.reply == GetPrice(q.payload) && r.state.counts[q.client] == 1
    // second reading more than a period after the first: new window, admitted, count 1
    ensures q.client in s.counts && Elapsed(q) > RequestLimitPeriod ==>
      r.reply == GetPrice(q.payload) && r.state.counts[q.client] == 1
    // at the limit: refused, nothing counted
    ensures q.client in s.counts && Elapsed(q) <= RequestLimitPeriod && s.counts[q.client] >= MaxRequestsPerHour ==>
      r.reply == LimitExceeded && r.state.counts == s.counts
    // under the limit: admitted, counted once more
    ensures q.client in s.counts && Elapsed(q) <= RequestLimitPeriod && s.counts[q.client] < MaxRequestsPerHour ==>
      r.reply == GetPrice(q.payload) && r.state.counts[q.client] == s.counts[q.client] + 1
  {
    var touched := s.(lastSeen := s.lastSeen[q.client := q.touchedAt]);
    if q.client in touched.counts then
      if q.checkedAt - touched.lastSeen[q.client] > RequestLimitPeriod then
        Admit(touched.(counts := touched.counts[q.client := 0]), q)
      else if touched.counts[q.client] >= MaxRequestsPerHour then
        StepResult(touched, LimitExceeded)
      else
        Admit(touched, q)
    else
      Admit(touched.(counts := touched.counts[q.client := 0]), q)
  }

  /** Handles the requests one after another, in order of arrival. */
  function Replay(s: State, qs: seq<Request>): (t: Trace)
    ensures |t.replies| == |qs|
    decreases |qs|
  {
    if qs == [] then Trace(s, [])
    else
      var before := Replay(s, qs[..|qs| - 1]);
      var last := Step(before.state, qs[|qs| - 1]);
      Trace(last.state, before.replies + [last.reply])
  }

  /** A catalog answer is never the refusal message, so a client can tell an
      admitted request from a refused one by its reply alone. */
  lemma RefusedIff(s: State, q: Request)
    ensures Step(s, q).reply == LimitExceeded <==>
      q.client in s.counts && Elapsed(q) <= RequestLimitPeriod && s.counts[q.client] >= MaxRequestsPerHour
  {
    if Step(s, q).reply == LimitExceeded {
      assert GetPrice(q.payload) != LimitExceeded;
    }
  }

  /** With one clock reading for both uses the elapsed time is zero, so the
      reset branch never runs: a known client is admitted exactly when its
      count is below the limit. */
  lemma SingleReadingNeverResets(s: State, q: Request)
    requires q.touchedAt == q.checkedAt
    requires q.client in s.counts
    ensures Step(s, q).reply == LimitExceeded <==> s.counts[q.client] >= MaxRequestsPerHour
    ensures Step(s, q).state.counts[q.client] ==
      if s.counts[q.client] >= MaxRequestsPerHour then s.counts[q.client] else s.counts[q.client] + 1
  {
    RefusedIff(s, q);
  }

  /** Handling a request keeps a well-formed state well-formed. */
  lemma StepKeepsWellFormed(s: State, q: Request)
    requires WellFormed(s)
    ensures WellFormed(Step(s, q).state)
  {
  }

  /** Every state the server reaches from its start is well-formed: the two
      maps have the same clients and every count is between 1 and 10. */
  lemma {:induction false} ReplayKeepsWellFormed(s: State, qs: seq<Request>)
    requires WellFormed(s)
    ensures WellFormed(Replay(s, qs).state)
    decreases |qs|
  {
    if qs != [] {
      ReplayKeepsWellFormed(s, qs[..|qs| - 1]);
      StepKeepsWellFormed(Replay(s, qs[..|qs| - 1]).state, qs[|qs| - 1]);
    }
  }

  lemma ReachableIsWellFormed(qs: seq<Request>)
    ensures WellFormed(Replay(Empty, qs).state)
  {
    ReplayKeepsWellFormed(Empty, qs);
  }

  /** Requests from other clients leave a client's entries in both maps as they were. */
  lemma {:induction false} OthersUntouched(s: State, a: EndPoint, qs: seq<Request>)
    requires forall i :: 0 <= i < |qs| ==> qs[i].client != a
    ensures a in Replay(s, qs).state.lastSeen <==> a in s.lastSeen
    ensures a in Replay(s, qs).state.counts <==> a in s.counts
    ensures a in s.lastSeen ==> Replay(s, qs).state.lastSeen[a] == s.lastSeen[a]
    ensures a in s.counts ==> Replay(s, qs).state.counts[a] == s.counts[a]
    decreases |qs|
  {
    if qs != [] {
      OthersUntouched(s, a, qs[..|qs| - 1]);
    }
  }

  /** A run of requests from one client, none of which takes the reset
      branch (the first request of a client with no entry never compares
      times, so its readings are free): the i-th (from 0) is admitted exactly when the count it started
      from plus i is below the limit, and the count ends capped at the limit. */
  lemma {:induction false} Burst(s: State, a: EndPoint, qs: seq<Request>)
    requires CountOf(s, a) >= 0
    requires forall i :: 0 <= i < |qs| ==> qs[i].client == a
    requires forall i :: 0 <= i < |qs| && (i > 0 || a in s.counts) ==> Elapsed(qs[i]) <= RequestLimitPeriod
    ensures forall i :: 0 <= i < |qs| ==>
      Replay(s, qs).replies[i] ==
        if CountOf(s, a) + i < MaxRequestsPerHour then GetPrice(qs[i].payload) else LimitExceeded
    ensures qs != [] ==> a in Replay(s, qs).state.counts
    ensures CountOf(Replay(s, qs).state, a) ==
      if CountOf(s, a) >= MaxRequestsPerHour then CountOf(s, a)
      else Min(CountOf(s, a) + |qs|, MaxRequestsPerHour)
    decreases |qs|
  {
    if qs != [] {
      var n := |qs|;
      var init := qs[..n - 1];
      Burst(s, a, init);
      var before := Replay(s, init);
      var last := Step(before.state, qs[n - 1]);
      assert Replay(s, qs) == Trace(last.state, before.replies + [last.reply]);
      RefusedIff(before.state, qs[n - 1]);
      forall i | 0 <= i < n
        ensures Replay(s, qs).replies[i] ==
          if CountOf(s, a) + i < MaxRequestsPerHour then GetPrice(qs[i].payload) else LimitExceeded
      {
        if i < n - 1 {
          assert Replay(s, qs).replies[i] == before.replies[i];
          assert init[i] == qs[i];
        }
      }
    }
  }

  /** From a client's first request on (whose readings are never compared),
      without a later reset, its n-th request
      (at index n - 1) is admitted exactly when n is at most 10, and answered
      from the catalog; refused requests leave the count at 10. */
  lemma NewClientBurst(s: State, a: EndPoint, qs: seq<Request>)
    requires a !in s.counts
    requires forall i :: 0 <= i < |qs| ==> qs[i].client == a
    requires forall i :: 1 <= i < |qs| ==> Elapsed(qs[i]) <= RequestLimitPeriod
    ensures forall i :: 0 <= i < |qs| ==>
      (Replay(s, qs).replies[i] != LimitExceeded <==> i + 1 <= MaxRequestsPerHour)
    ensures forall i :: 0 <= i < |qs| && i + 1 <= MaxRequestsPerHour ==>
      Replay(s, qs).replies[i] == GetPrice(qs[i].payload)
    ensures qs != [] ==>
      a in Replay(s, qs).state.counts && Replay(s, qs).state.counts[a] == Min(|qs|, MaxRequestsPerHour)
  {
    Burst(s, a, qs);
    forall i | 0 <= i < |qs| && i + 1 <= MaxRequestsPerHour
      ensures Replay(s, qs).replies[i] != LimitExceeded
    {
      assert GetPrice(qs[i].payload) != LimitExceeded;
    }
  }

  /** The end-to-end scenario of ten lookups, an eleventh, and a lookup after
      more than an hour of silence, with one clock reading per request: the
      first ten are answered, the eleventh is refused, and so is the late
      one, because its stored activity time is the very reading it is
      compared with. */
  lemma IdleHourDoesNotReset(a: EndPoint, t0: Time, t1: Time)
    requires t1 - t0 >= 61 * 60 * TicksPerSecond
    ensures var qs := seq(11, _ => Request(a, "processor", t0, t0)) + [Request(a, "memory", t1, t1)];
      && (forall i :: 0 <= i < 10 ==> Replay(Empty, qs).replies[i] == "$200")
      && Replay(Empty, qs).replies[10] == LimitExceeded
      && Replay(Empty, qs).replies[11] == LimitExceeded
      && Replay(Empty, qs).state.counts[a] == MaxRequestsPerHour
  {
    var qs := seq(11, _ => Request(a, "processor", t0, t0)) + [Request(a, "memory", t1, t1)];
    NewClientBurst(Empty, a, qs);
    assert forall i :: 0 <= i < 10 ==> qs[i].payload == "processor";
  }

  /** A client that has reached the limit stays refused, whatever other
      clients send in between, as long as none of its own requests takes the
      reset branch (with a single clock reading none can). */
  lemma {:induction false} LimitedStaysLimited(s: State, a: EndPoint, qs: seq<Request>)
    requires a in s.counts && s.counts[a] >= MaxRequestsPerHour
    requires forall i :: 0 <= i < |qs| && qs[i].client == a ==> Elapsed(qs[i]) <= RequestLimitPeriod
    ensures a in Replay(s, qs).state.counts && Replay(s, qs).state.counts[a] == s.counts[a]
    ensures forall i :: 0 <= i < |qs| && qs[i].client == a ==> Replay(s, qs).replies[i] == LimitExceeded
    decreases |qs|
  {
    if qs != [] {
      var n := |qs|;
      var init := qs[..n - 1];
      LimitedStaysLimited(s, a, init);
      var before := Replay(s, init);
      var last := Step(before.state, qs[n - 1]);
      assert Replay(s, qs) == Trace(last.state, before.replies + [last.reply]);
      forall i | 0 <= i < n && qs[i].client == a
        ensures Replay(s, qs).replies[i] == LimitExceeded
      {
        if i < n - 1 {
          assert Replay(s, qs).replies[i] == before.replies[i];
          assert init[i] == qs[i];
        }
      }
    }
  }
}
