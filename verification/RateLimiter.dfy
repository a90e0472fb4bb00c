// Two layers of token buckets in front of the log server: one global, one per address, and a
// sweeper that throws away the buckets of addresses it has not seen for a while.
module RateLimiter {

  // Rates are tokens per second; times are seconds.
  datatype Config = Config(globalRate: real, globalBurst: nat, ipRate: real, ipBurst: nat, sweep: real)

  predicate Sane(cfg: Config) { cfg.globalRate >= 0.0 && cfg.ipRate >= 0.0 && cfg.sweep > 0.0 }

  // ---------- Token bucket: the interface of golang.org/x/time/rate that the limiter uses ----------

  datatype Bucket = Bucket(tokens: real, last: real)

  function Min(a: real, b: real): real { if a < b then a else b }

  // Tokens available at a time: refilled since the last admission, capped at the burst.
  function Level(b: Bucket, rate: real, burst: nat, now: real): real
  {
    Min(burst as real, b.tokens + (if now > b.last then now - b.last else 0.0) * rate)
  }

  function NewBucket(burst: nat, now: real): Bucket { Bucket(burst as real, now) }

  predicate Admits(b: Bucket, rate: real, burst: nat, now: real) { Level(b, rate, burst, now) >= 1.0 }

  // Admission takes one token; refusal changes nothing.
  function Allow(b: Bucket, rate: real, burst: nat, now: real): Bucket
  {
    if Admits(b, rate, burst, now) then Bucket(Level(b, rate, burst, now) - 1.0, now) else b
  }

  // ---------- The limiter as a machine ----------

  datatype IpEntry = IpEntry(limiter: Bucket, lastSeen: real)
  datatype State = State(global: Bucket, perIP: map<string, IpEntry>)
  datatype Event = Request(ip: string, now: real) | Sweep(now: real)

  function Start(cfg: Config, now: real): State { State(NewBucket(cfg.globalBurst, now), map[]) }

  function EntryOf(cfg: Config, s: State, ip: string, now: real): Bucket
  {
    if ip in s.perIP then s.perIP[ip].limiter else NewBucket(cfg.ipBurst, now)
  }

  predicate Served(cfg: Config, s: State, ip: string, now: real)
  {
    Admits(s.global, cfg.globalRate, cfg.globalBurst, now)
    && Admits(EntryOf(cfg, s, ip, now), cfg.ipRate, cfg.ipBurst, now)
  }

  // A request refused by the global bucket never reaches the per-address map.
  function AfterRequest(cfg: Config, s: State, ip: string, now: real): State
  {
    if !Admits(s.global, cfg.globalRate, cfg.globalBurst, now) then s
    else
      var b := Allow(EntryOf(cfg, s, ip, now), cfg.ipRate, cfg.ipBurst, now);
      State(Allow(s.global, cfg.globalRate, cfg.globalBurst, now), s.perIP[ip := IpEntry(b, now)])
  }

  function AfterSweep(cfg: Config, s: State, now: real): State
  {
    s.(perIP := map ip | ip in s.perIP && s.perIP[ip].lastSeen >= now - cfg.sweep :: s.perIP[ip])
  }

  // With `evicting` false the sweeper does nothing.
  function Step(cfg: Config, s: State, e: Event, evicting: bool): State
  {
    match e
    case Request(ip, now) => AfterRequest(cfg, s, ip, now)
    case Sweep(now) => if evicting then AfterSweep(cfg, s, now) else s
  }

  // The answers to the requests of an event sequence, in order.
  function Answers(cfg: Config, s: State, events: seq<Event>, evicting: bool): seq<bool>
    decreases |events|
  {
    if events == [] then []
    else
      (if events[0].Request? then [Served(cfg, s, events[0].ip, events[0].now)] else [])
      + Answers(cfg, Step(cfg, s, events[0], evicting), events[1..], evicting)
  }

  predicate Ordered(events: seq<Event>, from: real)
  {
    events == [] || (from <= events[0].now && Ordered(events[1..], events[0].now))
  }

  // ---------- The code ----------

  class Limiter {
    const cfg: Config
    var global: Bucket
    var perIP: map<string, IpEntry>

    ghost function View(): State
      reads this
    {
      State(global, perIP)
    }

    constructor (cfg: Config, now: real)
      ensures this.cfg == cfg && View() == Start(cfg, now)
    {
      this.cfg := cfg;
      global := NewBucket(cfg.globalBurst, now);
      perIP := map[];
    }

    // One tick of the sweep loop: visits the entries in no particular order and deletes stale ones.
    method SweepOnce(now: real)
      modifies this
      ensures View() == AfterSweep(cfg, old(View()), now)
    {
      var cutoff := now - cfg.sweep;
      var unseen := perIP.Keys;
      ghost var was := perIP;
      while unseen != {}
        invariant unseen <= was.Keys
        invariant global == old(global)
        invariant perIP == map ip | ip in was && (ip in unseen || was[ip].lastSeen >= cutoff) :: was[ip]
        decreases |unseen|
      {
        var ip :| ip in unseen;
        if perIP[ip].lastSeen < cutoff {
          perIP := perIP - {ip};
        }
        unseen := unseen - {ip};
      }
    }

    method GetIPLimiter(ip: string, now: real) returns (b: Bucket)
      modifies this`perIP
      ensures b == EntryOf(cfg, old(View()), ip, now)
      ensures perIP == old(perIP)[ip := IpEntry(b, now)]
    {
      var entry;
      if ip in perIP {
        entry := perIP[ip];
      } else {
        entry := IpEntry(NewBucket(cfg.ipBurst, now), now);
      }
      entry := entry.(lastSeen := now);
      perIP := perIP[ip := entry];
      b := entry.limiter;
    }

    // One request through the middleware.
    method Handle(ip: string, now: real) returns (served: bool)
      modifies this
      ensures View() == AfterRequest(cfg, old(View()), ip, now)
      ensures served == Served(cfg, old(View()), ip, now)
    {
      var admitted := Admits(global, cfg.globalRate, cfg.globalBurst, now);
      global := Allow(global, cfg.globalRate, cfg.globalBurst, now);
      if !admitted {
        return false;
      }
      var b := GetIPLimiter(ip, now);
      served := Admits(b, cfg.ipRate, cfg.ipBurst, now);
      perIP := perIP[ip := perIP[ip].(limiter := Allow(b, cfg.ipRate, cfg.ipBurst, now))];
    }
  }

  // ---------- Eviction is invisible ----------

  // The tokens of an address, whether or not it has a bucket at the moment.
  function IpLevel(cfg: Config, s: State, ip: string, now: real): real
  {
    Level(EntryOf(cfg, s, ip, now), cfg.ipRate, cfg.ipBurst, now)
  }

  predicate WellTimed(b: Bucket, burst: nat, now: real)
  {
    0.0 <= b.tokens <= burst as real && b.last <= now
  }

  // What every state reached by time `now` satisfies.
  ghost predicate Inv(cfg: Config, s: State, now: real)
  {
    && WellTimed(s.global, cfg.globalBurst, now)
    && forall ip :: ip in s.perIP ==>
         WellTimed(s.perIP[ip].limiter, cfg.ipBurst, s.perIP[ip].lastSeen) && s.perIP[ip].lastSeen <= now
  }

  predicate IsFull(cfg: Config, b: Bucket, now: real)
  {
    Level(b, cfg.ipRate, cfg.ipBurst, now) == cfg.ipBurst as real
  }

  lemma Refill(b: Bucket, rate: real, burst: nat, now: real, later: real)
    requires rate >= 0.0 && b.last <= now <= later
    ensures Level(b, rate, burst, now) <= Level(b, rate, burst, later)
    ensures Level(b, rate, burst, later) <= Level(b, rate, burst, now) + (later - now) * rate
    ensures Level(b, rate, burst, now) == burst as real ==> Level(b, rate, burst, later) == burst as real
  {
    assert (later - b.last) * rate == (now - b.last) * rate + (later - now) * rate;
    assert (later - now) * rate >= 0.0;
  }

  lemma StepKeepsInv(cfg: Config, s: State, e: Event, evicting: bool, now: real)
    requires Sane(cfg) && Inv(cfg, s, now) && now <= e.now
    ensures Inv(cfg, Step(cfg, s, e, evicting), e.now)
  {
    if e.Request? {
      LevelBounds(s.global, cfg.globalRate, cfg.globalBurst, e.now);
      LevelBounds(EntryOf(cfg, s, e.ip, e.now), cfg.ipRate, cfg.ipBurst, e.now);
    }
  }

  lemma LevelBounds(b: Bucket, rate: real, burst: nat, now: real)
    requires rate >= 0.0 && WellTimed(b, burst, now)
    ensures 0.0 <= Level(b, rate, burst, now) <= burst as real
  {
    assert (now - b.last) * rate >= 0.0;
  }

  predicate RefillsWithinSweep(cfg: Config) { cfg.ipRate * cfg.sweep >= cfg.ipBurst as real }

  // A bucket left alone for longer than a sweep interval is full.
  lemma StaleIsFull(cfg: Config, b: Bucket, now: real)
    requires Sane(cfg) && RefillsWithinSweep(cfg)
    requires b.tokens >= 0.0 && b.last < now - cfg.sweep
    ensures IsFull(cfg, b, now)
  {
    MulMonotone(now - b.last, cfg.sweep, cfg.ipRate);
  }

  lemma MulMonotone(x: real, y: real, rate: real)
    requires x >= y && rate >= 0.0
    ensures x * rate >= y * rate
  {
    assert (x - y) * rate >= 0.0;
  }

  // Same bucket, or both full.
  predicate Alike(cfg: Config, b: Bucket, c: Bucket, now: real)
  {
    b == c || (IsFull(cfg, b, now) && IsFull(cfg, c, now))
  }

  // The evicting limiter s and the limiter r that never deletes, at the same time.
  ghost predicate Matches(cfg: Config, s: State, r: State, now: real)
  {
    && s.global == r.global
    && s.perIP.Keys <= r.perIP.Keys
    && (forall ip :: ip in s.perIP ==>
          s.perIP[ip].lastSeen == r.perIP[ip].lastSeen && Alike(cfg, s.perIP[ip].limiter, r.perIP[ip].limiter, now))
    && (forall ip :: ip in r.perIP && ip !in s.perIP ==> IsFull(cfg, r.perIP[ip].limiter, now))
  }

  lemma MatchesLater(cfg: Config, s: State, r: State, now: real, later: real)
    requires Sane(cfg) && Inv(cfg, s, now) && Inv(cfg, r, now) && Matches(cfg, s, r, now) && now <= later
    ensures Matches(cfg, s, r, later)
  {
    forall ip | ip in r.perIP
      ensures IsFull(cfg, r.perIP[ip].limiter, now) ==> IsFull(cfg, r.perIP[ip].limiter, later)
    {
      Refill(r.perIP[ip].limiter, cfg.ipRate, cfg.ipBurst, now, later);
    }
    forall ip | ip in s.perIP
      ensures IsFull(cfg, s.perIP[ip].limiter, now) ==> IsFull(cfg, s.perIP[ip].limiter, later)
    {
      Refill(s.perIP[ip].limiter, cfg.ipRate, cfg.ipBurst, now, later);
    }
  }

  lemma StepKeepsMatch(cfg: Config, s: State, r: State, e: Event, now: real)
    requires Sane(cfg) && RefillsWithinSweep(cfg)
    requires Inv(cfg, s, now) && Inv(cfg, r, now) && Matches(cfg, s, r, now) && now <= e.now
    ensures Matches(cfg, Step(cfg, s, e, true), Step(cfg, r, e, false), e.now)
    ensures e.Request? ==> Served(cfg, s, e.ip, e.now) == Served(cfg, r, e.ip, e.now)
  {
    MatchesLater(cfg, s, r, now, e.now);
    match e
    case Request(ip, t) =>
      assert Alike(cfg, EntryOf(cfg, s, ip, t), EntryOf(cfg, r, ip, t), t);
    case Sweep(t) =>
      forall ip | ip in s.perIP && s.perIP[ip].lastSeen < t - cfg.sweep
        ensures IsFull(cfg, r.perIP[ip].limiter, t)
      {
        StaleIsFull(cfg, r.perIP[ip].limiter, t);
      }
  }

  lemma {:induction false} SameAnswers(cfg: Config, s: State, r: State, events: seq<Event>, now: real)
    requires Sane(cfg) && RefillsWithinSweep(cfg)
    requires Inv(cfg, s, now) && Inv(cfg, r, now) && Matches(cfg, s, r, now) && Ordered(events, now)
    ensures Answers(cfg, s, events, true) == Answers(cfg, r, events, false)
    decreases |events|
  {
    if events != [] {
      var e := events[0];
      StepKeepsMatch(cfg, s, r, e, now);
      StepKeepsInv(cfg, s, e, true, now);
      StepKeepsInv(cfg, r, e, false, now);
      SameAnswers(cfg, Step(cfg, s, e, true), Step(cfg, r, e, false), events[1..], e.now);
    }
  }

  // A bucket that refills within a sweep interval can be thrown away unnoticed: for every arrival
  // sequence and every sweep schedule the answers are those of a limiter that keeps all buckets.
  lemma EvictionIsInvisible(cfg: Config, start: real, events: seq<Event>)
    requires Sane(cfg) && RefillsWithinSweep(cfg) && Ordered(events, start)
    ensures Answers(cfg, Start(cfg, start), events, true) == Answers(cfg, Start(cfg, start), events, false)
  {
    SameAnswers(cfg, Start(cfg, start), Start(cfg, start), events, start);
  }

  // ---------- Served requests in a window ----------

  function Steps(cfg: Config, evicting: bool): (State, Event) -> State
  {
    (s: State, e: Event) => Step(cfg, s, e, evicting)
  }

  // The state after a sequence of events.
  function After(step: (State, Event) -> State, s: State, events: seq<Event>): State
    decreases |events|
  {
    if events == [] then s else After(step, step(s, events[0]), events[1..])
  }

  function End(events: seq<Event>, from: real): real
  {
    if events == [] then from else events[|events| - 1].now
  }

  // Whether an event is a request of an address in p that is served.
  function Serves(cfg: Config, p: string -> bool): (State, Event) -> bool
  {
    (s: State, e: Event) => e.Request? && p(e.ip) && Served(cfg, s, e.ip, e.now)
  }

  function Count(step: (State, Event) -> State, hit: (State, Event) -> bool, s: State, events: seq<Event>): nat
    decreases |events|
  {
    if events == [] then 0
    else (if hit(s, events[0]) then 1 else 0) + Count(step, hit, step(s, events[0]), events[1..])
  }

  function Is(ip: string): string -> bool { (x: string) => x == ip }
  function Anyone(): string -> bool { (x: string) => true }

  lemma {:induction false} EndIsLater(events: seq<Event>, from: real)
    requires Ordered(events, from)
    ensures from <= End(events, from)
    ensures events != [] ==> End(events, from) == End(events[1..], events[0].now)
    decreases |events|
  {
    if events != [] {
      EndIsLater(events[1..], events[0].now);
    }
  }

  function One(served: bool): real { if served then 1.0 else 0.0 }

  lemma IpLevelRefills(cfg: Config, s: State, now: real, later: real, ip: string)
    requires Sane(cfg) && Inv(cfg, s, now) && now <= later
    ensures IpLevel(cfg, s, ip, later) <= IpLevel(cfg, s, ip, now) + cfg.ipRate * (later - now)
  {
    MulMonotone(later - now, 0.0, cfg.ipRate);
    if ip in s.perIP {
      Refill(s.perIP[ip].limiter, cfg.ipRate, cfg.ipBurst, now, later);
    }
  }

  lemma SweepKeepsLevel(cfg: Config, s: State, now: real, ip: string)
    requires Sane(cfg) && RefillsWithinSweep(cfg) && Inv(cfg, s, now)
    ensures IpLevel(cfg, AfterSweep(cfg, s, now), ip, now) == IpLevel(cfg, s, ip, now)
  {
    if ip in s.perIP && s.perIP[ip].lastSeen < now - cfg.sweep {
      StaleIsFull(cfg, s.perIP[ip].limiter, now);
    }
  }

  lemma RequestSpends(cfg: Config, s: State, e: Event, ip: string)
    requires Sane(cfg) && Inv(cfg, s, e.now) && e.Request?
    ensures IpLevel(cfg, AfterRequest(cfg, s, e.ip, e.now), ip, e.now) + One(Serves(cfg, Is(ip))(s, e))
         == IpLevel(cfg, s, ip, e.now)
  {
    var t := AfterRequest(cfg, s, e.ip, e.now);
    assert Serves(cfg, Is(ip))(s, e) == (e.ip == ip && Served(cfg, s, e.ip, e.now));
    if !Admits(s.global, cfg.globalRate, cfg.globalBurst, e.now) {
      assert t == s;
    } else if e.ip != ip {
      assert EntryOf(cfg, t, ip, e.now) == EntryOf(cfg, s, ip, e.now);
    } else {
      var b := EntryOf(cfg, s, ip, e.now);
      assert EntryOf(cfg, t, ip, e.now) == Allow(b, cfg.ipRate, cfg.ipBurst, e.now);
      if Admits(b, cfg.ipRate, cfg.ipBurst, e.now) {
        LevelAfterAllow(b, cfg.ipRate, cfg.ipBurst, e.now);
      }
    }
  }

  // One step spends a token of an address exactly when it serves it, and eviction of a full bucket
  // does not change what the address has.
  lemma IpLevelStep(cfg: Config, s: State, e: Event, evicting: bool, ip: string)
    requires Sane(cfg) && (evicting ==> RefillsWithinSweep(cfg)) && Inv(cfg, s, e.now)
    ensures IpLevel(cfg, Step(cfg, s, e, evicting), ip, e.now) + One(Serves(cfg, Is(ip))(s, e))
         == IpLevel(cfg, s, ip, e.now)
  {
    if e.Request? {
      RequestSpends(cfg, s, e, ip);
    } else if evicting {
      SweepKeepsLevel(cfg, s, e.now, ip);
    }
  }

  function GlobalLevel(cfg: Config, s: State, now: real): real
  {
    Level(s.global, cfg.globalRate, cfg.globalBurst, now)
  }

  lemma GlobalLevelStep(cfg: Config, s: State, e: Event, evicting: bool)
    requires Sane(cfg) && Inv(cfg, s, e.now)
    ensures GlobalLevel(cfg, Step(cfg, s, e, evicting), e.now) + One(Serves(cfg, Anyone())(s, e))
         <= GlobalLevel(cfg, s, e.now)
  {
    if e.Request? && Admits(s.global, cfg.globalRate, cfg.globalBurst, e.now) {
      LevelAfterAllow(s.global, cfg.globalRate, cfg.globalBurst, e.now);
      assert Step(cfg, s, e, evicting).global == Allow(s.global, cfg.globalRate, cfg.globalBurst, e.now);
    } else {
      assert Step(cfg, s, e, evicting).global == s.global;
      if e.Request? {
        assert !Served(cfg, s, e.ip, e.now);
      }
    }
  }

  // One event draws on a store of tokens exactly for a hit; what has flowed in by a time t is fill(t).
  ghost predicate SpendsWithin(step: (State, Event) -> State, hit: (State, Event) -> bool, inv: (State, real) -> bool,
                               level: (State, real) -> real, fill: real -> real, bound: real,
                               s: State, now: real, e: Event)
  {
    inv(s, now) && now <= e.now ==>
      && 0.0 <= level(s, now) <= bound
      && inv(s, e.now) && inv(step(s, e), e.now)
      && level(s, e.now) - fill(e.now) <= level(s, now) - fill(now)
      && level(step(s, e), e.now) + One(hit(s, e)) <= level(s, e.now)
  }

  ghost predicate IsBudget(step: (State, Event) -> State, hit: (State, Event) -> bool, inv: (State, real) -> bool,
                           level: (State, real) -> real, fill: real -> real, bound: real)
  {
    forall s, now, e: Event :: SpendsWithin(step, hit, inv, level, fill, bound, s, now, e)
  }

  // Hits never exceed the budget.
  lemma {:induction false} HitsWithinBudget(step: (State, Event) -> State, hit: (State, Event) -> bool,
                                            inv: (State, real) -> bool, level: (State, real) -> real,
                                            fill: real -> real, bound: real,
                                            s: State, events: seq<Event>, now: real)
    requires IsBudget(step, hit, inv, level, fill, bound) && inv(s, now) && Ordered(events, now)
    ensures Count(step, hit, s, events) as real <= level(s, now) + fill(End(events, now)) - fill(now)
    decreases |events|
  {
    if events == [] {
      assert SpendsWithin(step, hit, inv, level, fill, bound, s, now, Sweep(now));
    } else {
      var e := events[0];
      assert SpendsWithin(step, hit, inv, level, fill, bound, s, now, e);
      HitsWithinBudget(step, hit, inv, level, fill, bound, step(s, e), events[1..], e.now);
      EndIsLater(events, now);
    }
  }

  // In any window of any history the hits number at most the bound plus what flows in.
  lemma {:induction false} HitsInWindow(step: (State, Event) -> State, hit: (State, Event) -> bool,
                                        inv: (State, real) -> bool, level: (State, real) -> real,
                                        fill: real -> real, bound: real,
                                        s: State, start: real, before: seq<Event>, window: seq<Event>)
    requires IsBudget(step, hit, inv, level, fill, bound) && inv(s, start)
    requires window != [] && Ordered(before + window, start)
    ensures Count(step, hit, After(step, s, before), window) as real
         <= bound + fill(window[|window| - 1].now) - fill(window[0].now)
    decreases |before|
  {
    if before == [] {
      var first := window[0];
      assert before + window == window;
      assert SpendsWithin(step, hit, inv, level, fill, bound, s, start, first);
      assert SpendsWithin(step, hit, inv, level, fill, bound, s, first.now, first);
      HitsWithinBudget(step, hit, inv, level, fill, bound, s, window, first.now);
    } else {
      assert (before + window)[1..] == before[1..] + window;
      assert SpendsWithin(step, hit, inv, level, fill, bound, s, start, before[0]);
      HitsInWindow(step, hit, inv, level, fill, bound, step(s, before[0]), before[0].now, before[1..], window);
    }
  }

  // A constant flow.
  function Fill(rate: real): real -> real { (t: real) => rate * t }

  // The time from a window's first event to its last.
  function Length(window: seq<Event>): real
    requires window != []
  {
    window[|window| - 1].now - window[0].now
  }

  // What is allowed in a window: the burst, and what flows in over the window's length.
  function Allowance(rate: real, bound: real, window: seq<Event>): real
    requires window != []
  {
    bound + rate * Length(window)
  }

  lemma AllowanceIsFill(rate: real, bound: real, window: seq<Event>)
    requires window != []
    ensures Allowance(rate, bound, window)
         == bound + Fill(rate)(window[|window| - 1].now) - Fill(rate)(window[0].now)
  {
    var x, y := window[|window| - 1].now, window[0].now;
    assert rate * (x - y) == rate * x - rate * y;
  }

  lemma Flow(rate: real, now: real, later: real)
    ensures rate * (later - now) == Fill(rate)(later) - Fill(rate)(now)
  {
    assert rate * (later - now) == rate * later - rate * now;
  }

  lemma IpLevelFlows(cfg: Config, s: State, now: real, later: real, ip: string)
    requires Sane(cfg) && Inv(cfg, s, now) && now <= later
    ensures IpLevel(cfg, s, ip, later) - Fill(cfg.ipRate)(later) <= IpLevel(cfg, s, ip, now) - Fill(cfg.ipRate)(now)
  {
    IpLevelRefills(cfg, s, now, later, ip);
    Flow(cfg.ipRate, now, later);
  }

  lemma GlobalLevelFlows(cfg: Config, s: State, now: real, later: real)
    requires Sane(cfg) && Inv(cfg, s, now) && now <= later
    ensures GlobalLevel(cfg, s, later) - Fill(cfg.globalRate)(later)
         <= GlobalLevel(cfg, s, now) - Fill(cfg.globalRate)(now)
  {
    Refill(s.global, cfg.globalRate, cfg.globalBurst, now, later);
    Flow(cfg.globalRate, now, later);
  }

  lemma InvLater(cfg: Config, s: State, now: real, later: real)
    requires Inv(cfg, s, now) && now <= later
    ensures Inv(cfg, s, later)
  {
  }

  ghost function Invs(cfg: Config): (State, real) -> bool { (s: State, now: real) => Inv(cfg, s, now) }
  function GlobalLevels(cfg: Config): (State, real) -> real { (s: State, now: real) => GlobalLevel(cfg, s, now) }
  function IpLevels(cfg: Config, ip: string): (State, real) -> real
  {
    (s: State, now: real) => IpLevel(cfg, s, ip, now)
  }


  lemma GlobalSpends(cfg: Config, s: State, now: real, e: Event)
    requires Sane(cfg)
    ensures SpendsWithin(Steps(cfg, true), Serves(cfg, Anyone()), Invs(cfg), GlobalLevels(cfg), Fill(cfg.globalRate),
                         cfg.globalBurst as real, s, now, e)
  {
    if Inv(cfg, s, now) && now <= e.now {
      StepKeepsInv(cfg, s, e, true, now);
      InvLater(cfg, s, now, e.now);
      GlobalLevelFlows(cfg, s, now, e.now);
      GlobalLevelStep(cfg, s, e, true);
      LevelBounds(s.global, cfg.globalRate, cfg.globalBurst, now);
    }
  }

  lemma IpSpends(cfg: Config, ip: string, s: State, now: real, e: Event)
    requires Sane(cfg) && RefillsWithinSweep(cfg)
    ensures SpendsWithin(Steps(cfg, true), Serves(cfg, Is(ip)), Invs(cfg), IpLevels(cfg, ip), Fill(cfg.ipRate),
                         cfg.ipBurst as real, s, now, e)
  {
    if Inv(cfg, s, now) && now <= e.now {
      StepKeepsInv(cfg, s, e, true, now);
      InvLater(cfg, s, now, e.now);
      IpLevelFlows(cfg, s, now, e.now, ip);
      IpLevelStep(cfg, s, e, true, ip);
      LevelBounds(EntryOf(cfg, s, ip, now), cfg.ipRate, cfg.ipBurst, now);
    }
  }

  lemma GlobalLevelIsBudget(cfg: Config)
    requires Sane(cfg)
    ensures IsBudget(Steps(cfg, true), Serves(cfg, Anyone()), Invs(cfg), GlobalLevels(cfg), Fill(cfg.globalRate),
                     cfg.globalBurst as real)
  {
    var bound := cfg.globalBurst as real;
    forall s, now, e: Event
      ensures SpendsWithin(Steps(cfg, true), Serves(cfg, Anyone()), Invs(cfg), GlobalLevels(cfg), Fill(cfg.globalRate),
                           bound, s, now, e)
    {
      GlobalSpends(cfg, s, now, e);
    }
  }

  lemma IpLevelIsBudget(cfg: Config, ip: string)
    requires Sane(cfg) && RefillsWithinSweep(cfg)
    ensures IsBudget(Steps(cfg, true), Serves(cfg, Is(ip)), Invs(cfg), IpLevels(cfg, ip), Fill(cfg.ipRate),
                     cfg.ipBurst as real)
  {
    var bound := cfg.ipBurst as real;
    forall s, now, e: Event
      ensures SpendsWithin(Steps(cfg, true), Serves(cfg, Is(ip)), Invs(cfg), IpLevels(cfg, ip), Fill(cfg.ipRate),
                           bound, s, now, e)
    {
      IpSpends(cfg, ip, s, now, e);
    }
  }

  // The machine starts within its invariant and spends within the budget.
  ghost predicate Budgeted(step: (State, Event) -> State, hit: (State, Event) -> bool, fill: real -> real,
                           bound: real, s: State, start: real)
  {
    exists inv: (State, real) -> bool, level: (State, real) -> real ::
      IsBudget(step, hit, inv, level, fill, bound) && inv(s, start)
  }

  lemma BudgetBoundsWindow(step: (State, Event) -> State, hit: (State, Event) -> bool, rate: real, bound: real,
                           s: State, start: real, before: seq<Event>, window: seq<Event>)
    requires window != [] && Ordered(before + window, start)
    ensures Budgeted(step, hit, Fill(rate), bound, s, start) ==>
      Count(step, hit, After(step, s, before), window) as real <= Allowance(rate, bound, window)
  {
    AllowanceIsFill(rate, bound, window);
    if inv: (State, real) -> bool, level: (State, real) -> real :|
      IsBudget(step, hit, inv, level, Fill(rate), bound) && inv(s, start)
    {
      HitsInWindow(step, hit, inv, level, Fill(rate), bound, s, start, before, window);
    }
  }

  // The requests of p served in a window that follows some history.
  function ServedIn(cfg: Config, start: real, before: seq<Event>, window: seq<Event>, p: string -> bool): nat
  {
    Count(Steps(cfg, true), Serves(cfg, p), After(Steps(cfg, true), Start(cfg, start), before), window)
  }

  lemma GlobalIsBudgeted(cfg: Config, start: real)
    requires Sane(cfg)
    ensures Budgeted(Steps(cfg, true), Serves(cfg, Anyone()), Fill(cfg.globalRate), cfg.globalBurst as real,
                     Start(cfg, start), start)
  {
    GlobalLevelIsBudget(cfg);
    assert Invs(cfg)(Start(cfg, start), start);
  }

  lemma IpIsBudgeted(cfg: Config, start: real, ip: string)
    requires Sane(cfg) && RefillsWithinSweep(cfg)
    ensures Budgeted(Steps(cfg, true), Serves(cfg, Is(ip)), Fill(cfg.ipRate), cfg.ipBurst as real,
                     Start(cfg, start), start)
  {
    IpLevelIsBudget(cfg, ip);
    assert Invs(cfg)(Start(cfg, start), start);
  }

  // In any window of any history all addresses together are served at most globalBurst +
  // globalRate * T requests, T being the length of the window.
  lemma GlobalWindowBound(cfg: Config, start: real, before: seq<Event>, window: seq<Event>)
    requires Sane(cfg) && window != [] && Ordered(before + window, start)
    ensures ServedIn(cfg, start, before, window, Anyone()) as real
         <= Allowance(cfg.globalRate, cfg.globalBurst as real, window)
  {
    GlobalIsBudgeted(cfg, start);
    BudgetBoundsWindow(Steps(cfg, true), Serves(cfg, Anyone()), cfg.globalRate, cfg.globalBurst as real,
                       Start(cfg, start), start, before, window);
  }

  // And one address at most ipBurst + ipRate * T, if eviction does not forget a used bucket.
  lemma IpWindowBound(cfg: Config, start: real, before: seq<Event>, window: seq<Event>, ip: string)
    requires Sane(cfg) && RefillsWithinSweep(cfg) && window != [] && Ordered(before + window, start)
    ensures ServedIn(cfg, start, before, window, Is(ip)) as real <= Allowance(cfg.ipRate, cfg.ipBurst as real, window)
  {
    IpIsBudgeted(cfg, start, ip);
    BudgetBoundsWindow(Steps(cfg, true), Serves(cfg, Is(ip)), cfg.ipRate, cfg.ipBurst as real,
                       Start(cfg, start), start, before, window);
  }

  // ---------- Exactly when eviction is invisible ----------

  // n requests of one address at the same instant.
  function Volley(ip: string, now: real, n: nat): seq<Event>
  {
    if n == 0 then [] else [Request(ip, now)] + Volley(ip, now, n - 1)
  }

  lemma {:induction false} VolleyOrdered(ip: string, now: real, n: nat, rest: seq<Event>)
    requires Ordered(rest, now)
    ensures Ordered(Volley(ip, now, n) + rest, now)
  {
    if n == 0 {
      assert [] + rest == rest;
    } else {
      VolleyOrdered(ip, now, n - 1, rest);
      assert (Volley(ip, now, n) + rest)[1..] == Volley(ip, now, n - 1) + rest;
    }
  }

  lemma LevelAfterAllow(b: Bucket, rate: real, burst: nat, now: real)
    requires Admits(b, rate, burst, now)
    ensures Level(Allow(b, rate, burst, now), rate, burst, now) == Level(b, rate, burst, now) - 1.0
  {
  }

  // While both buckets have the tokens, a volley is served in full and spends them.
  lemma {:induction false} VolleyServed(cfg: Config, s: State, ip: string, now: real, n: nat, evicting: bool)
    requires Level(s.global, cfg.globalRate, cfg.globalBurst, now) >= n as real
    requires IpLevel(cfg, s, ip, now) >= n as real
    ensures var t := After(Steps(cfg, evicting), s, Volley(ip, now, n));
            && Level(t.global, cfg.globalRate, cfg.globalBurst, now)
                 == Level(s.global, cfg.globalRate, cfg.globalBurst, now) - n as real
            && IpLevel(cfg, t, ip, now) == IpLevel(cfg, s, ip, now) - n as real
            && (n > 0 ==> ip in t.perIP && t.perIP[ip].lastSeen == now && t.perIP[ip].limiter.last == now)
    ensures forall i :: 0 <= i < |Answers(cfg, s, Volley(ip, now, n), evicting)| ==>
              Answers(cfg, s, Volley(ip, now, n), evicting)[i]
    ensures |Answers(cfg, s, Volley(ip, now, n), evicting)| == n
    decreases n
  {
    if n > 0 {
      var v := Volley(ip, now, n);
      assert v[1..] == Volley(ip, now, n - 1);
      LevelAfterAllow(s.global, cfg.globalRate, cfg.globalBurst, now);
      LevelAfterAllow(EntryOf(cfg, s, ip, now), cfg.ipRate, cfg.ipBurst, now);
      VolleyServed(cfg, AfterRequest(cfg, s, ip, now), ip, now, n - 1, evicting);
    }
  }

  // Without them, some request of the volley is refused.
  lemma {:induction false} VolleyRefused(cfg: Config, s: State, ip: string, now: real, n: nat, evicting: bool)
    requires IpLevel(cfg, s, ip, now) < n as real && n > 0
    ensures false in Answers(cfg, s, Volley(ip, now, n), evicting)
    decreases n
  {
    var v := Volley(ip, now, n);
    assert v[1..] == Volley(ip, now, n - 1);
    if Served(cfg, s, ip, now) {
      LevelAfterAllow(EntryOf(cfg, s, ip, now), cfg.ipRate, cfg.ipBurst, now);
      VolleyRefused(cfg, AfterRequest(cfg, s, ip, now), ip, now, n - 1, evicting);
    }
  }

  // A time after which a stale bucket has been swept although it is not full again.
  lemma SweptTooEarly(cfg: Config) returns (t: real)
    requires Sane(cfg) && !RefillsWithinSweep(cfg)
    ensures t > cfg.sweep && cfg.ipRate * t < cfg.ipBurst as real
  {
    if cfg.ipRate == 0.0 {
      t := cfg.sweep + 1.0;
    } else {
      t := (cfg.sweep + cfg.ipBurst as real / cfg.ipRate) / 2.0;
      var x := cfg.ipBurst as real / cfg.ipRate;
      assert x * cfg.ipRate == cfg.ipBurst as real;
      assert cfg.sweep < x by {
        if cfg.sweep >= x {
          MulMonotone(cfg.sweep, x, cfg.ipRate);
        }
      }
      MulStrict(x, t, cfg.ipRate);
    }
  }

  lemma MulStrict(x: real, y: real, rate: real)
    requires x > y && rate > 0.0
    ensures x * rate > y * rate
  {
    assert (x - y) * rate > 0.0;
  }

  lemma {:induction false} AnswersConcat(cfg: Config, s: State, a: seq<Event>, b: seq<Event>, evicting: bool)
    ensures Answers(cfg, s, a + b, evicting)
         == Answers(cfg, s, a, evicting) + Answers(cfg, After(Steps(cfg, evicting), s, a), b, evicting)
    decreases |a|
  {
    if a == [] {
      assert a + b == b;
    } else {
      assert (a + b)[1..] == a[1..] + b;
      AnswersConcat(cfg, Step(cfg, s, a[0], evicting), a[1..], b, evicting);
    }
  }

  // Eviction gives a used-up address a full bucket again.
  lemma SweptBucketIsFull(cfg: Config, a: State, ip: string, t: real)
    requires Sane(cfg) && t > cfg.sweep && cfg.globalRate == 0.0
    requires ip in a.perIP && a.perIP[ip].lastSeen == 0.0
    ensures GlobalLevel(cfg, AfterSweep(cfg, a, t), t) == GlobalLevel(cfg, a, 0.0)
    ensures IpLevel(cfg, AfterSweep(cfg, a, t), ip, t) == cfg.ipBurst as real
  {
    assert ip !in AfterSweep(cfg, a, t).perIP;
  }

  // Without eviction it is not full yet.
  lemma KeptBucketIsNotFull(cfg: Config, b: State, ip: string, t: real)
    requires Sane(cfg) && t > cfg.sweep && cfg.ipRate * t < cfg.ipBurst as real
    requires ip in b.perIP && b.perIP[ip].limiter.last == 0.0 && IpLevel(cfg, b, ip, 0.0) == 0.0
    ensures IpLevel(cfg, b, ip, t) < cfg.ipBurst as real
  {
    Refill(b.perIP[ip].limiter, cfg.ipRate, cfg.ipBurst, 0.0, t);
  }

  function EarlySweep(cfg: Config, ip: string, t: real): seq<Event>
  {
    Volley(ip, 0.0, cfg.ipBurst) + ([Sweep(t)] + Volley(ip, t, cfg.ipBurst))
  }

  lemma EarlySweepOrdered(cfg: Config, ip: string, t: real)
    requires t > 0.0
    ensures Ordered(EarlySweep(cfg, ip, t), 0.0)
  {
    var n := cfg.ipBurst;
    var second := [Sweep(t)] + Volley(ip, t, n);
    VolleyOrdered(ip, t, n, []);
    assert Volley(ip, t, n) + [] == Volley(ip, t, n) && second[1..] == Volley(ip, t, n);
    VolleyOrdered(ip, 0.0, n, second);
  }

  lemma AnswersAfterSweep(cfg: Config, s: State, t: real, rest: seq<Event>, evicting: bool)
    ensures Answers(cfg, s, [Sweep(t)] + rest, evicting)
         == Answers(cfg, Step(cfg, s, Sweep(t), evicting), rest, evicting)
  {
    assert ([Sweep(t)] + rest)[1..] == rest;
  }

  // The schedule that shows it: use up the burst, sweep before it is back, and ask for it again.
  lemma EarlySweepEvicting(cfg: Config, ip: string, t: real)
    requires Sane(cfg) && t > cfg.sweep && cfg.ipBurst > 0
    requires cfg.globalBurst == 2 * cfg.ipBurst && cfg.globalRate == 0.0
    ensures false !in Answers(cfg, Start(cfg, 0.0), EarlySweep(cfg, ip, t), true)
    ensures |Answers(cfg, Start(cfg, 0.0), EarlySweep(cfg, ip, t), true)| == 2 * cfg.ipBurst
  {
    var n, s := cfg.ipBurst, Start(cfg, 0.0);
    var first := Volley(ip, 0.0, n);
    VolleyServed(cfg, s, ip, 0.0, n, true);
    var a := After(Steps(cfg, true), s, first);
    SweptBucketIsFull(cfg, a, ip, t);
    VolleyServed(cfg, AfterSweep(cfg, a, t), ip, t, n, true);
    AnswersConcat(cfg, s, first, [Sweep(t)] + Volley(ip, t, n), true);
    AnswersAfterSweep(cfg, a, t, Volley(ip, t, n), true);
  }

  lemma EarlySweepKeeping(cfg: Config, ip: string, t: real)
    requires Sane(cfg) && t > cfg.sweep && cfg.ipRate * t < cfg.ipBurst as real && cfg.ipBurst > 0
    requires cfg.globalBurst == 2 * cfg.ipBurst && cfg.globalRate == 0.0
    ensures false in Answers(cfg, Start(cfg, 0.0), EarlySweep(cfg, ip, t), false)
  {
    var n, s := cfg.ipBurst, Start(cfg, 0.0);
    var first := Volley(ip, 0.0, n);
    VolleyServed(cfg, s, ip, 0.0, n, false);
    var b := After(Steps(cfg, false), s, first);
    KeptBucketIsNotFull(cfg, b, ip, t);
    VolleyRefused(cfg, b, ip, t, n, false);
    AnswersConcat(cfg, s, first, [Sweep(t)] + Volley(ip, t, n), false);
    AnswersAfterSweep(cfg, b, t, Volley(ip, t, n), false);
  }

  // No global limit, arrival sequence or sweep schedule tells the limiter from one that keeps all buckets.
  ghost predicate NeverShows(ipRate: real, ipBurst: nat, sweep: real)
  {
    forall cfg: Config, start: real, events: seq<Event> ::
      Sane(cfg) && cfg.ipRate == ipRate && cfg.ipBurst == ipBurst && cfg.sweep == sweep && Ordered(events, start) ==>
        Answers(cfg, Start(cfg, start), events, true) == Answers(cfg, Start(cfg, start), events, false)
  }

  // Eviction is invisible if and only if a bucket refills within one sweep interval.
  lemma EvictionInvisibleIff(ipRate: real, ipBurst: nat, sweep: real)
    requires ipRate >= 0.0 && sweep > 0.0
    ensures NeverShows(ipRate, ipBurst, sweep) <==> ipRate * sweep >= ipBurst as real
  {
    if ipRate * sweep >= ipBurst as real {
      forall cfg: Config, start: real, events: seq<Event> |
        Sane(cfg) && cfg.ipRate == ipRate && cfg.ipBurst == ipBurst && cfg.sweep == sweep && Ordered(events, start)
        ensures Answers(cfg, Start(cfg, start), events, true) == Answers(cfg, Start(cfg, start), events, false)
      {
        EvictionIsInvisible(cfg, start, events);
      }
    } else {
      MulMonotone(sweep, 0.0, ipRate);
      var cfg := Config(0.0, 2 * ipBurst, ipRate, ipBurst, sweep);
      var t := SweptTooEarly(cfg);
      EarlySweepOrdered(cfg, "", t);
      EarlySweepEvicting(cfg, "", t);
      EarlySweepKeeping(cfg, "", t);
      var events := EarlySweep(cfg, "", t);
      assert Answers(cfg, Start(cfg, 0.0), events, true) != Answers(cfg, Start(cfg, 0.0), events, false);
    }
  }

  predicate OnlyFrom(events: seq<Event>, ip: string)
  {
    forall i :: 0 <= i < |events| && events[i].Request? ==> events[i].ip == ip
  }

  lemma {:induction false} AllServed(cfg: Config, s: State, events: seq<Event>, ip: string)
    requires OnlyFrom(events, ip) && false !in Answers(cfg, s, events, true)
    ensures Count(Steps(cfg, true), Serves(cfg, Is(ip)), s, events) == |Answers(cfg, s, events, true)|
    decreases |events|
  {
    if events != [] {
      var e, rest := events[0], events[1..];
      var later := Answers(cfg, Step(cfg, s, e, true), rest, true);
      var now := Answers(cfg, s, events, true);
      assert now == (if e.Request? then [Served(cfg, s, e.ip, e.now)] else []) + later;
      assert forall b :: b in later ==> b in now;
      assert e.Request? ==> now[0] in now;
      assert OnlyFrom(rest, ip) by {
        assert forall i :: 0 <= i < |rest| ==> rest[i] == events[i + 1];
      }
      AllServed(cfg, Step(cfg, s, e, true), rest, ip);
      assert Serves(cfg, Is(ip))(s, e) == (e.Request? && e.ip == ip && Served(cfg, s, e.ip, e.now));
    }
  }

  lemma {:induction false} VolleyOnlyFrom(ip: string, now: real, n: nat)
    ensures OnlyFrom(Volley(ip, now, n), ip) && |Volley(ip, now, n)| == n
    ensures forall i :: 0 <= i < n ==> Volley(ip, now, n)[i].now == now
  {
    if n > 0 {
      VolleyOnlyFrom(ip, now, n - 1);
    }
  }

  // Every window of every history keeps to the address's allowance.
  ghost predicate AllowanceHolds(ipRate: real, ipBurst: nat, sweep: real)
  {
    forall cfg: Config, start: real, before: seq<Event>, window: seq<Event>, ip: string ::
      Sane(cfg) && cfg.ipRate == ipRate && cfg.ipBurst == ipBurst && cfg.sweep == sweep
      && window != [] && Ordered(before + window, start) ==>
        ServedIn(cfg, start, before, window, Is(ip)) as real <= Allowance(ipRate, ipBurst as real, window)
  }

  lemma EarlySweepShape(cfg: Config, ip: string, t: real)
    requires cfg.ipBurst > 0
    ensures var window := EarlySweep(cfg, ip, t);
            OnlyFrom(window, ip) && window != [] && window[0].now == 0.0 && window[|window| - 1].now == t
  {
    VolleyOnlyFrom(ip, 0.0, cfg.ipBurst);
    VolleyOnlyFrom(ip, t, cfg.ipBurst);
  }

  // The swept limiter serves the burst twice.
  lemma EarlySweepServed(cfg: Config, ip: string, t: real)
    requires Sane(cfg) && t > cfg.sweep && cfg.ipBurst > 0
    requires cfg.globalBurst == 2 * cfg.ipBurst && cfg.globalRate == 0.0
    ensures ServedIn(cfg, 0.0, [], EarlySweep(cfg, ip, t), Is(ip)) == 2 * cfg.ipBurst
  {
    EarlySweepEvicting(cfg, ip, t);
    EarlySweepShape(cfg, ip, t);
    AllServed(cfg, Start(cfg, 0.0), EarlySweep(cfg, ip, t), ip);
  }

  lemma AllowanceOf(window: seq<Event>, t: real, rate: real, burst: nat)
    requires window != [] && window[0].now == 0.0 && window[|window| - 1].now == t
    requires rate * t < burst as real
    ensures Allowance(rate, burst as real, window) < (2 * burst) as real
  {
    assert Length(window) == t;
  }

  lemma RefillKeepsAllowance(ipRate: real, ipBurst: nat, sweep: real)
    requires ipRate * sweep >= ipBurst as real
    ensures AllowanceHolds(ipRate, ipBurst, sweep)
  {
    forall cfg: Config, start: real, before: seq<Event>, window: seq<Event>, ip: string |
      Sane(cfg) && cfg.ipRate == ipRate && cfg.ipBurst == ipBurst && cfg.sweep == sweep
      && window != [] && Ordered(before + window, start)
      ensures ServedIn(cfg, start, before, window, Is(ip)) as real <= Allowance(ipRate, ipBurst as real, window)
    {
      IpWindowBound(cfg, start, before, window, ip);
    }
  }

  lemma EarlySweepExceedsAllowance(cfg: Config, ip: string, t: real)
    requires Sane(cfg) && t > cfg.sweep && cfg.ipRate * t < cfg.ipBurst as real && cfg.ipBurst > 0
    requires cfg.globalBurst == 2 * cfg.ipBurst && cfg.globalRate == 0.0
    ensures !AllowanceHolds(cfg.ipRate, cfg.ipBurst, cfg.sweep)
  {
    var window := EarlySweep(cfg, ip, t);
    EarlySweepServed(cfg, ip, t);
    EarlySweepShape(cfg, ip, t);
    EarlySweepOrdered(cfg, ip, t);
    AllowanceOf(window, t, cfg.ipRate, cfg.ipBurst);
    assert [] + window == window;
    assert ServedIn(cfg, 0.0, [], window, Is(ip)) as real > Allowance(cfg.ipRate, cfg.ipBurst as real, window);
  }

  // An address keeps to its allowance in every window if and only if a bucket refills within one
  // sweep interval.
  lemma AllowanceHoldsIff(ipRate: real, ipBurst: nat, sweep: real)
    requires ipRate >= 0.0 && sweep > 0.0
    ensures AllowanceHolds(ipRate, ipBurst, sweep) <==> ipRate * sweep >= ipBurst as real
  {
    if ipRate * sweep >= ipBurst as real {
      RefillKeepsAllowance(ipRate, ipBurst, sweep);
    } else {
      MulMonotone(sweep, 0.0, ipRate);
      var cfg := Config(0.0, 2 * ipBurst, ipRate, ipBurst, sweep);
      var t := SweptTooEarly(cfg);
      EarlySweepExceedsAllowance(cfg, "", t);
    }
  }
}
