/**
 * The request rate limiter (`src/utils/http_ratelimit.rs`).
 *
 * One limiter is a clock-driven state machine. `Count` is the number of calls
 * it admits in a time window; the bounds on it hold for every sequence of
 * calls. A server keeps one limiter per address, and every address sees
 * exactly the behaviour of its own limiter.
 */
module RateLimits {
  import opened Wrappers
  import opened Bytes

  // ---- one limiter ----

  /** `num` requests per period; `Rate::new` panics unless both are positive. */
  datatype Rate = Rate(num: u64, per: int) {
    predicate Valid() {
      num > 0 && per > 0
    }
  }

  datatype State = Limited(after: int) | Ready(until: int, rem: u64)

  /** The instants one call reads, in order: on creating a state, on the check, on limiting. */
  datatype Clock = Clock(entered: int, now: int, later: int) {
    predicate Valid() {
      entered <= now <= later
    }
  }

  datatype Outcome = Admitted | Rejected(wait: int)

  function NewReady(rate: Rate, entered: int): State {
    Ready(entered, rate.num)
  }

  function Decide(state: State, clock: Clock): Outcome {
    match state
    case Ready(_, _) => Admitted
    case Limited(after) => if clock.now < after then Rejected(after - clock.now) else Admitted
  }

  function Next(rate: Rate, state: State, clock: Clock): State
    requires rate.Valid()
  {
    match state
    case Ready(until, rem) =>
      var elapsed := clock.now >= until;
      var until' := if elapsed then clock.now + rate.per else until;
      var rem' := if elapsed then rate.num else rem;
      if rem' > 1 then Ready(until', rem' - 1) else Limited(clock.later + rate.per)
    case Limited(after) =>
      if clock.now < after then state else Ready(clock.now + rate.per, rate.num)
  }

  // ---- runs of one limiter ----

  ghost predicate Ordered(calls: seq<Clock>) {
    && (forall i | 0 <= i < |calls| :: calls[i].Valid())
    && (forall i, j | 0 <= i < j < |calls| :: calls[i].later <= calls[j].entered)
  }

  function After(rate: Rate, state: State, calls: seq<Clock>): State
    requires rate.Valid()
    decreases |calls|
  {
    if |calls| == 0 then state else After(rate, Next(rate, state, calls[0]), calls[1..])
  }

  /** How many calls at a time in [lo, hi) are admitted. */
  function Count(rate: Rate, state: State, calls: seq<Clock>, lo: int, hi: int): nat
    requires rate.Valid()
    decreases |calls|
  {
    if |calls| == 0 then 0
    else
      (if lo <= calls[0].now < hi && Decide(state, calls[0]).Admitted? then 1 else 0)
      + Count(rate, Next(rate, state, calls[0]), calls[1..], lo, hi)
  }

  /** A state the limiter can be in: never more credit than the rate, never none. */
  predicate Sane(rate: Rate, state: State) {
    state.Ready? ==> 1 <= state.rem <= rate.num
  }

  // ---- sliding windows ----

  /** The most a state can still admit before `end`, when `end` is at most one period away. */
  function Potential(rate: Rate, state: State, end: int): nat
    requires rate.Valid() && Sane(rate, state)
  {
    match state
    case Limited(after) => if after < end then rate.num + 1 else 0
    case Ready(until, rem) => if until < end then rem - 1 + rate.num else rem
  }

  lemma {:induction false} PotentialBounds(rate: Rate, state: State, calls: seq<Clock>, lo: int, end: int)
    requires rate.Valid() && Sane(rate, state) && Ordered(calls)
    requires end <= lo + rate.per
    requires |calls| > 0 ==> lo <= calls[0].now
    ensures Count(rate, state, calls, lo, end) <= Potential(rate, state, end)
    decreases |calls|
  {
    if |calls| > 0 {
      if |calls| > 1 {
        assert calls[0].later <= calls[1].entered;
      }
      PotentialBounds(rate, Next(rate, state, calls[0]), calls[1..], lo, end);
      if calls[0].now >= end {
        NothingAfter(rate, state, calls, lo, end);
      }
    }
  }

  lemma {:induction false} NothingAfter(rate: Rate, state: State, calls: seq<Clock>, lo: int, end: int)
    requires rate.Valid() && Ordered(calls)
    requires |calls| > 0 ==> end <= calls[0].now
    ensures Count(rate, state, calls, lo, end) == 0
    decreases |calls|
  {
    if |calls| > 0 {
      if |calls| > 1 {
        assert calls[0].later <= calls[1].entered;
      }
      NothingAfter(rate, Next(rate, state, calls[0]), calls[1..], lo, end);
    }
  }

  /** The most a state can admit at the instant `at`. */
  function InstantLimit(rate: Rate, state: State, at: int): nat
    requires rate.Valid() && Sane(rate, state)
  {
    match state
    case Limited(after) => if after <= at then rate.num + 1 else 0
    case Ready(until, rem) => if until <= at then rate.num else rem
  }

  lemma {:induction false} InstantBound(rate: Rate, state: State, calls: seq<Clock>, at: int)
    requires rate.Valid() && Sane(rate, state) && Ordered(calls)
    requires |calls| > 0 ==> at <= calls[0].now
    ensures Count(rate, state, calls, at, at + 1) <= InstantLimit(rate, state, at)
    decreases |calls|
  {
    if |calls| > 0 {
      if |calls| > 1 {
        assert calls[0].later <= calls[1].entered;
      }
      if calls[0].now > at {
        NothingAfter(rate, state, calls, at, at + 1);
      } else {
        InstantBound(rate, Next(rate, state, calls[0]), calls[1..], at);
      }
    }
  }

  /** A window of one period can straddle two periods unless a period is a single tick of the clock. */
  function WindowLimit(rate: Rate): nat
    requires rate.Valid()
  {
    if rate.num == 1 || rate.per == 1 then rate.num + 1 else 2 * rate.num - 1
  }

  /** Any half-open window of one period admits at most max(num + 1, 2 * num - 1) requests, or num + 1 in a one-tick period. */
  lemma {:induction false} SlidingWindow(rate: Rate, state: State, calls: seq<Clock>, lo: int)
    requires rate.Valid() && Sane(rate, state) && Ordered(calls)
    ensures Count(rate, state, calls, lo, lo + rate.per) <= WindowLimit(rate)
    decreases |calls|
  {
    if |calls| > 0 {
      if lo > calls[0].now {
        SlidingWindow(rate, Next(rate, state, calls[0]), calls[1..], lo);
      } else if rate.per == 1 {
        InstantBound(rate, state, calls, lo);
      } else {
        PotentialBounds(rate, state, calls, lo, lo + rate.per);
      }
    }
  }

  // ---- the long run ----

  /**
   * From a state whose credit lasts until `until`, at most `rem` calls are
   * admitted before that and `num + 1` in each period after it.
   */
  lemma {:induction false} PeriodsBound(rate: Rate, state: State, calls: seq<Clock>, lo: int, end: int, k: nat)
    requires rate.Valid() && Sane(rate, state) && Ordered(calls)
    requires |calls| > 0 && state.Ready? ==> state.until <= calls[0].now + rate.per
    requires end <= (if state.Ready? then state.until else state.after) + k * rate.per
    ensures Count(rate, state, calls, lo, end) <= (if state.Ready? then state.rem else 0) + (rate.num + 1) * k
    decreases |calls|
  {
    if |calls| > 0 {
      var clock, next := calls[0], Next(rate, state, calls[0]);
      if |calls| > 1 {
        assert clock.later <= calls[1].entered;
      }
      if clock.now >= end {
        NothingAfter(rate, state, calls, lo, end);
      } else if state.Ready? && clock.now < state.until {
        PeriodsBound(rate, next, calls[1..], lo, end, k);
      } else if state.Limited? && clock.now < state.after {
        PeriodsBound(rate, next, calls[1..], lo, end, k);
      } else {
        OnePeriodLess(rate, k);
        PeriodsBound(rate, next, calls[1..], lo, end, k - 1);
      }
    }
  }

  lemma OnePeriodLess(rate: Rate, k: nat)
    ensures k > 0 ==> (k - 1) * rate.per + rate.per == k * rate.per
    ensures k > 0 ==> (rate.num + 1) * (k - 1) + rate.num + 1 == (rate.num + 1) * k
    ensures k == 0 ==> k * rate.per == 0
  {
  }

  /** A fresh limiter admits fewer than `k * (num + 1)` calls in the first `k` periods after its first call. */
  lemma LongRun(rate: Rate, calls: seq<Clock>, lo: int, k: nat)
    requires rate.Valid() && Ordered(calls) && |calls| > 0 && k > 0
    ensures var fresh_ := NewReady(rate, calls[0].entered);
            Count(rate, fresh_, calls, lo, calls[0].now + k * rate.per) <= (rate.num + 1) * k - 1
  {
    var fresh_ := NewReady(rate, calls[0].entered);
    if |calls| > 1 {
      assert calls[0].later <= calls[1].entered;
    }
    OnePeriodLess(rate, k);
    PeriodsBound(rate, Next(rate, fresh_, calls[0]), calls[1..], lo, calls[0].now + k * rate.per, k - 1);
  }

  // ---- rejection ----

  /** A rejection ends at the limiter's own instant: nothing is admitted before the wait is over, and the first call after it is. */
  lemma {:induction false} RejectionEndsOnTime(rate: Rate, state: State, clock: Clock, calls: seq<Clock>, i: nat)
    requires rate.Valid() && clock.Valid() && Decide(state, clock).Rejected?
    requires i < |calls|
    requires forall j | 0 <= j < i :: calls[j].now < clock.now + Decide(state, clock).wait
    ensures var before := After(rate, Next(rate, state, clock), calls[..i]);
            && before == state
            && (Decide(before, calls[i]).Admitted? <==> calls[i].now >= clock.now + Decide(state, clock).wait)
    decreases i
  {
    if i > 0 {
      assert calls[..i][1..] == calls[1..][..i - 1];
      assert Next(rate, state, calls[0]) == state;
      RejectionEndsOnTime(rate, state, clock, calls[1..], i - 1);
    }
  }

  /** Ticks of the clock in a second; instants are counted in nanoseconds. */
  const SECOND: int := 1_000_000_000

  /** `after.as_secs() as u32`, the wait the rejected caller reads in the response. */
  function ToldSeconds(wait: nat): (seconds: nat)
    ensures seconds < 0x1_0000_0000
  {
    (wait / SECOND) % 0x1_0000_0000
  }

  /**
   * A caller who waits exactly as long as it was told is admitted exactly when
   * the wait is a whole number of seconds that fits 32 bits; otherwise it is
   * rejected again, however many rejections lie between.
   */
  lemma ToldWaitSufficesIff(rate: Rate, state: State, clock: Clock, calls: seq<Clock>, i: nat)
    requires rate.Valid() && clock.Valid() && Decide(state, clock).Rejected?
    requires i < |calls| && calls[i].now == clock.now + ToldSeconds(Decide(state, clock).wait) * SECOND
    requires forall j | 0 <= j < i :: calls[j].now < calls[i].now
    ensures var wait := Decide(state, clock).wait;
            Decide(After(rate, Next(rate, state, clock), calls[..i]), calls[i]).Admitted?
            <==> wait % SECOND == 0 && wait / SECOND < 0x1_0000_0000
  {
    RejectionEndsOnTime(rate, state, clock, calls, i);
  }

  /** With a period of a second and a half, coming back after the one second that was told is too early. */
  lemma ToldWaitFallsShort()
    ensures var rate, state := Rate(1, 1_500_000_000), Limited(1_500_000_000);
            && state == Next(rate, NewReady(rate, 0), Clock(0, 0, 0))
            && Decide(state, Clock(0, 0, 0)) == Rejected(1_500_000_000)
            && ToldSeconds(1_500_000_000) == 1
            && Decide(state, Clock(SECOND, SECOND, SECOND)).Rejected?
  {
  }

  // ---- the window bound is reached ----

  function Burst(at: int, n: nat): seq<Clock> {
    seq(n, i => Clock(at, at, at))
  }

  lemma {:induction false} CountConcat(rate: Rate, state: State, a: seq<Clock>, b: seq<Clock>, lo: int, hi: int)
    requires rate.Valid()
    ensures After(rate, state, a + b) == After(rate, After(rate, state, a), b)
    ensures Count(rate, state, a + b, lo, hi)
         == Count(rate, state, a, lo, hi) + Count(rate, After(rate, state, a), b, lo, hi)
    decreases |a|
  {
    if |a| == 0 {
      assert a + b == b;
    } else {
      assert (a + b)[1..] == a[1..] + b;
      CountConcat(rate, Next(rate, state, a[0]), a[1..], b, lo, hi);
    }
  }

  /** Calls at one instant use up credit one by one, and the last credit limits the limiter. */
  lemma {:induction false} BurstSpends(rate: Rate, state: State, at: int, n: nat, lo: int, hi: int)
    requires rate.Valid() && Sane(rate, state) && state.Ready? && at < state.until && n <= state.rem
    ensures After(rate, state, Burst(at, n))
         == if n < state.rem then Ready(state.until, state.rem - n) else Limited(at + rate.per)
    ensures Count(rate, state, Burst(at, n), lo, hi) == if lo <= at < hi then n else 0
    decreases n
  {
    if n > 0 {
      assert Burst(at, n)[1..] == Burst(at, n - 1);
      if state.rem > 1 {
        BurstSpends(rate, Next(rate, state, Clock(at, at, at)), at, n - 1, lo, hi);
      }
    }
  }

  /** A burst on an elapsed or released state: the first call starts a new period. */
  lemma BurstStarts(rate: Rate, state: State, at: int, n: nat, lo: int, hi: int)
    requires rate.Valid() && Sane(rate, state)
    requires if state.Ready? then at >= state.until && 1 <= n <= rate.num else at >= state.after && 1 <= n <= rate.num + 1
    ensures var credit := (if state.Ready? then rate.num else rate.num + 1) - n;
            After(rate, state, Burst(at, n)) == (if credit > 0 then Ready(at + rate.per, credit) else Limited(at + rate.per))
    ensures Count(rate, state, Burst(at, n), lo, hi) == if lo <= at < hi then n else 0
  {
    assert Burst(at, n)[1..] == Burst(at, n - 1);
    var next := Next(rate, state, Clock(at, at, at));
    if next.Ready? {
      BurstSpends(rate, next, at, n - 1, lo, hi);
    }
  }

  /**
   * Spend everything, wait out the limit, spend all but one credit at the very
   * end of the period and a full period's credit right after it. With a single
   * credit or a single tick there is no such end: spend all there is at once.
   */
  function WorstCase(rate: Rate): seq<Clock>
    requires rate.Valid()
  {
    if rate.num == 1 || rate.per == 1 then Burst(0, rate.num) + Burst(rate.per, rate.num + 1)
    else Burst(0, rate.num) + (Burst(rate.per, 1) + (Burst(2 * rate.per - 1, rate.num - 1) + Burst(2 * rate.per, rate.num)))
  }

  function WorstWindow(rate: Rate): int {
    if rate.num == 1 || rate.per == 1 then rate.per else 2 * rate.per - 1
  }

  lemma WorstCaseAtOnce(rate: Rate)
    requires rate.Valid() && (rate.num == 1 || rate.per == 1)
    ensures Count(rate, NewReady(rate, 0), WorstCase(rate), rate.per, 2 * rate.per) == rate.num + 1
  {
    var s0, lo, hi := NewReady(rate, 0), rate.per, 2 * rate.per;
    CountConcat(rate, s0, Burst(0, rate.num), Burst(rate.per, rate.num + 1), lo, hi);
    BurstStarts(rate, s0, 0, rate.num, lo, hi);
    BurstStarts(rate, Limited(rate.per), rate.per, rate.num + 1, lo, hi);
  }

  lemma WorstCaseOfMany(rate: Rate)
    requires rate.Valid() && rate.num > 1 && rate.per > 1
    ensures Count(rate, NewReady(rate, 0), WorstCase(rate), 2 * rate.per - 1, 3 * rate.per - 1) == 2 * rate.num - 1
  {
    hide Burst, Count, After;
    var s0, lo, hi := NewReady(rate, 0), 2 * rate.per - 1, 3 * rate.per - 1;
    var spend, exit := Burst(0, rate.num), Burst(rate.per, 1);
    var late, last := Burst(2 * rate.per - 1, rate.num - 1), Burst(2 * rate.per, rate.num);
    var s1, s2 := Limited(rate.per), Ready(2 * rate.per, rate.num);
    CountConcat(rate, s0, spend, exit + (late + last), lo, hi);
    CountConcat(rate, s1, exit, late + last, lo, hi);
    CountConcat(rate, s2, late, last, lo, hi);
    BurstStarts(rate, s0, 0, rate.num, lo, hi);
    BurstStarts(rate, s1, rate.per, 1, lo, hi);
    BurstSpends(rate, s2, 2 * rate.per - 1, rate.num - 1, lo, hi);
    BurstStarts(rate, Ready(2 * rate.per, 1), 2 * rate.per, rate.num, lo, hi);
  }

  /** No smaller bound holds: for every rate some calls reach it. */
  lemma SlidingWindowIsTight(rate: Rate)
    requires rate.Valid()
    ensures Ordered(WorstCase(rate))
    ensures var lo := WorstWindow(rate);
            Count(rate, NewReady(rate, 0), WorstCase(rate), lo, lo + rate.per) == WindowLimit(rate)
  {
    if rate.num == 1 || rate.per == 1 {
      WorstCaseAtOnce(rate);
    } else {
      WorstCaseOfMany(rate);
    }
  }

  // ---- many addresses ----

  type Ip = bytes

  /** What the limiter looks at in a request: the parsed header address, if any, and the peer address, if any. */
  datatype Request = Request(header: Option<Ip>, peer: Option<Ip>)

  datatype Server = Server(
    rate: Rate,
    global: State,
    keyed: map<Ip, State>,
    useHeader: bool,
    allowed: Option<set<Ip>>)
  {
    function KeyOf(request: Request): Option<Ip> {
      if useHeader && request.header.Some? then request.header else request.peer
    }

    predicate Bypassed(key: Option<Ip>) {
      key.Some? && allowed.Some? && key.value in allowed.value
    }

    /** The limiter a key is served by; a new address gets a new one. */
    function Limiter(key: Option<Ip>, entered: int): State {
      match key
      case None => global
      case Some(ip) => if ip in keyed then keyed[ip] else NewReady(rate, entered)
    }

    function Handled(request: Request, clock: Clock): (Server, Outcome)
      requires rate.Valid()
    {
      var key := KeyOf(request);
      if Bypassed(key) then (this, Admitted)
      else
        var state := Limiter(key, clock.entered);
        var next := Next(rate, state, clock);
        (match key case None => this.(global := next) case Some(ip) => this.(keyed := keyed[ip := next]),
         Decide(state, clock))
    }
  }

  /** The address a request is counted under: the header's where the server is told to look there, else the peer's. */
  lemma KeyOfRequest(server: Server, header: Option<Ip>, peer: Option<Ip>)
    ensures !server.useHeader ==> server.KeyOf(Request(header, peer)) == peer
    ensures server.useHeader ==> forall ip :: server.KeyOf(Request(Some(ip), peer)) == Some(ip)
    ensures server.KeyOf(Request(None, peer)) == peer
  {
  }

  /** No allow list, or one without the address, means that its requests are counted. */
  predicate Counted(server: Server, key: Option<Ip>) {
    key.None? || server.allowed.None? || key.value !in server.allowed.value
  }

  type Call = (Request, Clock)

  function Served(server: Server, calls: seq<Call>): Server
    requires server.rate.Valid()
    decreases |calls|
  {
    if |calls| == 0 then server
    else Served(server.Handled(calls[0].0, calls[0].1).0, calls[1..])
  }

  /** The outcomes of the calls that come from `key`, in order. */
  function OutcomesOf(server: Server, calls: seq<Call>, key: Option<Ip>): seq<Outcome>
    requires server.rate.Valid()
    decreases |calls|
  {
    if |calls| == 0 then []
    else
      var (next, outcome) := server.Handled(calls[0].0, calls[0].1);
      (if server.KeyOf(calls[0].0) == key then [outcome] else []) + OutcomesOf(next, calls[1..], key)
  }

  /** The clocks of those calls. */
  function ClocksOf(server: Server, calls: seq<Call>, key: Option<Ip>): seq<Clock>
    decreases |calls|
  {
    if |calls| == 0 then []
    else (if server.KeyOf(calls[0].0) == key then [calls[0].1] else []) + ClocksOf(server, calls[1..], key)
  }

  function Outcomes(rate: Rate, state: State, calls: seq<Clock>): seq<Outcome>
    requires rate.Valid()
    decreases |calls|
  {
    if |calls| == 0 then []
    else [Decide(state, calls[0])] + Outcomes(rate, Next(rate, state, calls[0]), calls[1..])
  }

  /** When the key's limiter was or will be created. */
  function FirstEntered(clocks: seq<Clock>): int {
    if |clocks| == 0 then 0 else clocks[0].entered
  }

  /** Projected to one key, a run over any mix of addresses is a run of that key's own limiter. */
  lemma {:induction false} PerKeyRefinement(server: Server, calls: seq<Call>, key: Option<Ip>)
    requires server.rate.Valid() && Counted(server, key)
    ensures var clocks := ClocksOf(server, calls, key);
            OutcomesOf(server, calls, key) == Outcomes(server.rate, server.Limiter(key, FirstEntered(clocks)), clocks)
    decreases |calls|
  {
    if |calls| > 0 {
      var (next, outcome) := server.Handled(calls[0].0, calls[0].1);
      var clocks, rest := ClocksOf(server, calls, key), ClocksOf(server, calls[1..], key);
      SameKeys(server, next, calls[1..], key);
      PerKeyRefinement(next, calls[1..], key);
      if server.KeyOf(calls[0].0) == key {
        assert clocks == [calls[0].1] + rest;
        assert clocks[1..] == rest;
        assert OutcomesOf(server, calls, key) == [outcome] + OutcomesOf(next, calls[1..], key);
      } else {
        assert clocks == rest;
        assert OutcomesOf(server, calls, key) == OutcomesOf(next, calls[1..], key);
      }
    }
  }

  lemma {:induction false} SameKeys(server: Server, next: Server, calls: seq<Call>, key: Option<Ip>)
    requires next.useHeader == server.useHeader
    ensures ClocksOf(next, calls, key) == ClocksOf(server, calls, key)
    decreases |calls|
  {
    if |calls| > 0 {
      SameKeys(server, next, calls[1..], key);
    }
  }

  /** How many requests of `key` the server admits in [lo, hi). */
  function AdmittedFrom(server: Server, calls: seq<Call>, key: Option<Ip>, lo: int, hi: int): nat
    requires server.rate.Valid()
    decreases |calls|
  {
    if |calls| == 0 then 0
    else
      var (next, outcome) := server.Handled(calls[0].0, calls[0].1);
      var counted := server.KeyOf(calls[0].0) == key && lo <= calls[0].1.now < hi && outcome.Admitted?;
      (if counted then 1 else 0) + AdmittedFrom(next, calls[1..], key, lo, hi)
  }

  lemma {:induction false} AdmittedIsCount(server: Server, calls: seq<Call>, key: Option<Ip>, lo: int, hi: int)
    requires server.rate.Valid() && Counted(server, key)
    ensures var clocks := ClocksOf(server, calls, key);
            var first := server.Limiter(key, FirstEntered(clocks));
            AdmittedFrom(server, calls, key, lo, hi) == Count(server.rate, first, clocks, lo, hi)
    decreases |calls|
  {
    if |calls| > 0 {
      var (next, outcome) := server.Handled(calls[0].0, calls[0].1);
      var clocks, rest := ClocksOf(server, calls, key), ClocksOf(server, calls[1..], key);
      SameKeys(server, next, calls[1..], key);
      AdmittedIsCount(next, calls[1..], key, lo, hi);
      if server.KeyOf(calls[0].0) == key {
        assert clocks == [calls[0].1] + rest;
        assert clocks[1..] == rest;
      } else {
        assert clocks == rest;
      }
    }
  }

  ghost predicate OrderedCalls(calls: seq<Call>) {
    && (forall i | 0 <= i < |calls| :: calls[i].1.Valid())
    && (forall i, j | 0 <= i < j < |calls| :: calls[i].1.later <= calls[j].1.entered)
  }

  lemma {:induction false} ProjectionIsOrdered(server: Server, calls: seq<Call>, key: Option<Ip>, start: int)
    requires OrderedCalls(calls)
    requires forall i | 0 <= i < |calls| :: start <= calls[i].1.entered
    ensures Ordered(ClocksOf(server, calls, key))
    ensures forall i | 0 <= i < |ClocksOf(server, calls, key)| :: start <= ClocksOf(server, calls, key)[i].entered
    decreases |calls|
  {
    if |calls| > 0 {
      ProjectionIsOrdered(server, calls[1..], key, calls[0].1.later);
    }
  }

  /** Every limiter the server holds is one a single limiter could be in. */
  ghost predicate SaneServer(server: Server) {
    && server.rate.Valid()
    && Sane(server.rate, server.global)
    && forall ip | ip in server.keyed :: Sane(server.rate, server.keyed[ip])
  }

  /** A new server is sane, and so is every server a run of calls leads to. */
  lemma {:induction false} ServedIsSane(server: Server, calls: seq<Call>)
    requires SaneServer(server)
    ensures SaneServer(Served(server, calls))
    decreases |calls|
  {
    if |calls| > 0 {
      var key, clock := server.KeyOf(calls[0].0), calls[0].1;
      ServedIsSane(server.Handled(calls[0].0, clock).0, calls[1..]);
    }
  }

  /** However requests from different addresses interleave, no address beats the window limit. */
  lemma ServerSlidingWindow(server: Server, calls: seq<Call>, key: Option<Ip>, lo: int)
    requires SaneServer(server) && OrderedCalls(calls) && Counted(server, key)
    ensures AdmittedFrom(server, calls, key, lo, lo + server.rate.per) <= WindowLimit(server.rate)
  {
    var clocks := ClocksOf(server, calls, key);
    var first := server.Limiter(key, FirstEntered(clocks));
    AdmittedIsCount(server, calls, key, lo, lo + server.rate.per);
    ProjectionIsOrdered(server, calls, key, if |calls| > 0 then calls[0].1.entered else 0);
    SlidingWindow(server.rate, first, clocks, lo);
  }

  /** The request names the address in its header, where the server looks there, or else comes from it. */
  predicate FromAddress(server: Server, request: Request, ip: Ip) {
    if server.useHeader && request.header.Some? then request.header.value == ip else request.peer == Some(ip)
  }

  /** How many of the requests in `who` the server admits in [lo, hi). */
  function AdmittedOf(server: Server, calls: seq<Call>, who: Request -> bool, lo: int, hi: int): nat
    requires server.rate.Valid()
    decreases |calls|
  {
    if |calls| == 0 then 0
    else
      var (next, outcome) := server.Handled(calls[0].0, calls[0].1);
      (if who(calls[0].0) && lo <= calls[0].1.now < hi && outcome.Admitted? then 1 else 0)
      + AdmittedOf(next, calls[1..], who, lo, hi)
  }

  lemma {:induction false} AdmittedOfKey(server: Server, calls: seq<Call>, who: Request -> bool, key: Option<Ip>,
                                         lo: int, hi: int)
    requires server.rate.Valid()
    requires forall request | who(request) :: server.KeyOf(request) == key
    ensures AdmittedOf(server, calls, who, lo, hi) <= AdmittedFrom(server, calls, key, lo, hi)
    decreases |calls|
  {
    if |calls| > 0 {
      var next := server.Handled(calls[0].0, calls[0].1).0;
      forall request | who(request)
        ensures next.KeyOf(request) == key
      {
        assert server.KeyOf(request) == key;
      }
      AdmittedOfKey(next, calls[1..], who, key, lo, hi);
    }
  }

  /**
   * Whatever else its requests say, an address that is not on the allow list
   * gets no more of them through than the window limit.
   */
  lemma AddressSlidingWindow(server: Server, calls: seq<Call>, who: Request -> bool, ip: Ip, lo: int)
    requires SaneServer(server) && OrderedCalls(calls)
    requires server.allowed.Some? ==> ip !in server.allowed.value
    requires forall request | who(request) :: FromAddress(server, request, ip)
    ensures AdmittedOf(server, calls, who, lo, lo + server.rate.per) <= WindowLimit(server.rate)
  {
    forall request | who(request)
      ensures server.KeyOf(request) == Some(ip)
    {
      assert FromAddress(server, request, ip);
    }
    AdmittedOfKey(server, calls, who, Some(ip), lo, lo + server.rate.per);
    ServerSlidingWindow(server, calls, Some(ip), lo);
  }

  /** An allow-listed address is never rejected and leaves no trace. */
  lemma {:induction false} AllowedAreFree(server: Server, calls: seq<Call>, ips: set<Ip>, ip: Ip)
    requires server.rate.Valid() && server.allowed == Some(ips) && ip in ips
    ensures forall outcome | outcome in OutcomesOf(server, calls, Some(ip)) :: outcome == Admitted
    ensures ip in Served(server, calls).keyed <==> ip in server.keyed
    ensures ip in server.keyed ==> Served(server, calls).keyed[ip] == server.keyed[ip]
    decreases |calls|
  {
    if |calls| > 0 {
      AllowedAreFree(server.Handled(calls[0].0, calls[0].1).0, calls[1..], ips, ip);
    }
  }

  class RateLimit {
    var rate: Rate
    var globalState: State
    var keyedStates: map<Ip, State>
    const checkHeaderForIp: bool
    const allowedIps: Option<set<Ip>>

    ghost function View(): Server
      reads this
    {
      Server(rate, globalState, keyedStates, checkHeaderForIp, allowedIps)
    }

    constructor (num: u64, per: int, checkHeaderForIp: bool, allowedIps: Option<set<Ip>>, now: int)
      requires Rate(num, per).Valid()
      ensures View() == Server(Rate(num, per), Ready(now, num), map[], checkHeaderForIp, allowedIps)
      ensures SaneServer(View())
    {
      this.rate := Rate(num, per);
      this.globalState := Ready(now, num);
      this.keyedStates := map[];
      this.checkHeaderForIp := checkHeaderForIp;
      this.allowedIps := allowedIps;
    }

    function BypassForKey(key: Ip): bool {
      allowedIps.Some? && key in allowedIps.value
    }

    function ExtractKey(request: Request): Option<Ip> {
      if checkHeaderForIp && request.header.Some? then request.header else request.peer
    }

    /** `Service::call`: pick the state, decide, overwrite the state. */
    method Call(request: Request, clock: Clock) returns (outcome: Outcome)
      requires rate.Valid()
      modifies this
      ensures (View(), outcome) == old(View()).Handled(request, clock)
    {
      var key := ExtractKey(request);
      var state;
      match key {
        case Some(ip) =>
          if BypassForKey(ip) {
            return Admitted;
          }
          if ip !in keyedStates {
            keyedStates := keyedStates[ip := Ready(clock.entered, rate.num)];
          }
          state := keyedStates[ip];
        case None =>
          state := globalState;
      }
      match state {
        case Ready(until, rem) =>
          var credit := rem;
          var end := until;
          if clock.now >= end {
            end := clock.now + rate.per;
            credit := rate.num;
          }
          if credit > 1 {
            credit := credit - 1;
            state := Ready(end, credit);
          } else {
            state := Limited(clock.later + rate.per);
          }
          outcome := Admitted;
        case Limited(after) =>
          if clock.now < after {
            outcome := Rejected(after - clock.now);
          } else {
            state := Ready(clock.now + rate.per, rate.num);
            outcome := Admitted;
          }
      }
      match key {
        case Some(ip) =>
          keyedStates := keyedStates[ip := state];
          assert keyedStates == old(keyedStates)[ip := state];
        case None =>
          globalState := state;
      }
    }
  }
}
