// What the rate limiter's answers are, without buckets: a request is admitted when, in every window
// that ends with it, the requests admitted before leave room for one more.
module LimiterLedger {
  import opened RateLimiter

  // ---------- The reference ----------

  // What one event came to: past the global limit, and past the address's too.
  datatype Draw = Draw(event: Event, admitted: bool, served: bool)

  function CountDraws(draws: seq<Draw>, hit: Draw -> bool): nat
  {
    if draws == [] then 0
    else CountDraws(draws[..|draws| - 1], hit) + if hit(draws[|draws| - 1]) then 1 else 0
  }

  // Together with one more hit now, every window holds at most the burst and what flows in.
  predicate HasRoom(draws: seq<Draw>, hit: Draw -> bool, now: real, rate: real, burst: nat)
  {
    1 <= burst && forall i :: 0 <= i < |draws| ==> HasRoomFrom(draws, hit, i, now, rate, burst)
  }

  predicate HasRoomFrom(draws: seq<Draw>, hit: Draw -> bool, i: nat, now: real, rate: real, burst: nat)
    requires i < |draws|
  {
    (CountDraws(draws[i..], hit) + 1) as real <= burst as real + rate * (now - draws[i].event.now)
  }

  function Admitted(): Draw -> bool { (d: Draw) => d.admitted }

  function ServedTo(ip: string): Draw -> bool
  {
    (d: Draw) => d.served && d.event.Request? && d.event.ip == ip
  }

  function Judge(cfg: Config, before: seq<Draw>, e: Event): Draw
  {
    if e.Sweep? then Draw(e, false, false)
    else
      var admitted := HasRoom(before, Admitted(), e.now, cfg.globalRate, cfg.globalBurst);
      Draw(e, admitted, admitted && HasRoom(before, ServedTo(e.ip), e.now, cfg.ipRate, cfg.ipBurst))
  }

  function Ledger(cfg: Config, events: seq<Event>): (draws: seq<Draw>)
    ensures |draws| == |events| && forall i :: 0 <= i < |events| ==> draws[i].event == events[i]
  {
    if events == [] then []
    else
      var before := Ledger(cfg, events[..|events| - 1]);
      before + [Judge(cfg, before, events[|events| - 1])]
  }

  function AnswersIn(draws: seq<Draw>): seq<bool>
  {
    if draws == [] then []
    else
      var d := draws[|draws| - 1];
      AnswersIn(draws[..|draws| - 1]) + if d.event.Request? then [d.served] else []
  }

  // ---------- Levels are what windows leave ----------

  // What a window that starts with draw i leaves at a time.
  function Left(draws: seq<Draw>, hit: Draw -> bool, i: nat, now: real, rate: real, burst: nat): real
    requires i < |draws|
  {
    burst as real + rate * (now - draws[i].event.now) - CountDraws(draws[i..], hit) as real
  }

  // The level of a bucket is the least that any window leaves, and at most the burst.
  ghost predicate IsLeast(draws: seq<Draw>, hit: Draw -> bool, now: real, rate: real, burst: nat, level: real)
  {
    && level <= burst as real
    && (forall i :: 0 <= i < |draws| ==> level <= Left(draws, hit, i, now, rate, burst))
    && (level == burst as real || exists i :: 0 <= i < |draws| && level == Left(draws, hit, i, now, rate, burst))
  }

  lemma LeftLater(draws: seq<Draw>, hit: Draw -> bool, i: nat, now: real, later: real, rate: real, burst: nat)
    requires i < |draws|
    ensures Left(draws, hit, i, later, rate, burst) == Left(draws, hit, i, now, rate, burst) + rate * (later - now)
  {
    var t := draws[i].event.now;
    assert rate * (later - t) == rate * (now - t) + rate * (later - now);
  }

  lemma FlowsIn(rate: real, elapsed: real)
    requires rate >= 0.0 && elapsed >= 0.0
    ensures rate * elapsed >= 0.0
  {
  }

  lemma LeastLater(draws: seq<Draw>, hit: Draw -> bool, now: real, later: real, rate: real, burst: nat,
                   level: real, left: real)
    requires rate >= 0.0 && now <= later && left == Min(burst as real, level + rate * (later - now))
    ensures IsLeast(draws, hit, now, rate, burst, level) ==> IsLeast(draws, hit, later, rate, burst, left)
  {
    FlowsIn(rate, later - now);
    forall i | 0 <= i < |draws|
      ensures Left(draws, hit, i, later, rate, burst) == Left(draws, hit, i, now, rate, burst) + rate * (later - now)
    {
      LeftLater(draws, hit, i, now, later, rate, burst);
    }
    if IsLeast(draws, hit, now, rate, burst, level) && left != burst as real {
      var i :| 0 <= i < |draws| && level == Left(draws, hit, i, now, rate, burst);
      assert left == Left(draws, hit, i, later, rate, burst);
    }
  }

  lemma LeftAfter(draws: seq<Draw>, hit: Draw -> bool, d: Draw, i: nat, rate: real, burst: nat)
    requires i <= |draws|
    ensures Left(draws + [d], hit, i, d.event.now, rate, burst) + One(hit(d))
         == if i < |draws| then Left(draws, hit, i, d.event.now, rate, burst) else burst as real
  {
    var all := draws + [d];
    if i < |draws| {
      assert all[i..] == draws[i..] + [d];
      assert all[i..][..|all[i..]| - 1] == draws[i..];
    } else {
      assert all[i..] == [d] && [d][..0] == [] && CountDraws([], hit) == 0;
      assert rate * (d.event.now - d.event.now) == 0.0;
    }
  }

  lemma LeastAfter(draws: seq<Draw>, hit: Draw -> bool, d: Draw, rate: real, burst: nat, level: real)
    requires IsLeast(draws, hit, d.event.now, rate, burst, level)
    ensures IsLeast(draws + [d], hit, d.event.now, rate, burst, level - One(hit(d)))
  {
    var all, left := draws + [d], level - One(hit(d));
    forall i | 0 <= i < |all| ensures left <= Left(all, hit, i, d.event.now, rate, burst) {
      LeftAfter(draws, hit, d, i, rate, burst);
    }
    LeftAfter(draws, hit, d, |draws|, rate, burst);
    if level != burst as real {
      var i :| 0 <= i < |draws| && level == Left(draws, hit, i, d.event.now, rate, burst);
      LeftAfter(draws, hit, d, i, rate, burst);
      assert left == Left(all, hit, i, d.event.now, rate, burst);
    } else {
      assert left == Left(all, hit, |draws|, d.event.now, rate, burst);
    }
  }

  // One token is there exactly when every window has room.
  lemma LeastDecides(draws: seq<Draw>, hit: Draw -> bool, now: real, rate: real, burst: nat, level: real)
    requires IsLeast(draws, hit, now, rate, burst, level)
    ensures level >= 1.0 <==> HasRoom(draws, hit, now, rate, burst)
  {
    if HasRoom(draws, hit, now, rate, burst) && level != burst as real {
      var i :| 0 <= i < |draws| && level == Left(draws, hit, i, now, rate, burst);
      assert HasRoomFrom(draws, hit, i, now, rate, burst);
    }
    if level >= 1.0 {
      forall i | 0 <= i < |draws| ensures HasRoomFrom(draws, hit, i, now, rate, burst) {
        assert level <= Left(draws, hit, i, now, rate, burst);
      }
    }
  }

  // ---------- The limiter keeps the ledger ----------

  ghost predicate Tracks(cfg: Config, s: State, draws: seq<Draw>, now: real)
  {
    && IsLeast(draws, Admitted(), now, cfg.globalRate, cfg.globalBurst, GlobalLevel(cfg, s, now))
    && forall ip :: IsLeast(draws, ServedTo(ip), now, cfg.ipRate, cfg.ipBurst, IpLevel(cfg, s, ip, now))
  }

  lemma LevelLater(b: Bucket, rate: real, burst: nat, now: real, later: real)
    requires rate >= 0.0 && b.last <= now <= later
    ensures Level(b, rate, burst, later) == Min(burst as real, Level(b, rate, burst, now) + rate * (later - now))
  {
    var flow := rate * (later - now);
    assert flow >= 0.0 && (later - b.last) * rate == (now - b.last) * rate + flow;
    assert now == b.last ==> (now - b.last) * rate == 0.0;
    assert later == b.last ==> flow == 0.0;
  }

  lemma IpLevelLater(cfg: Config, s: State, ip: string, now: real, later: real)
    requires Sane(cfg) && Inv(cfg, s, now) && now <= later
    ensures IpLevel(cfg, s, ip, later)
         == Min(cfg.ipBurst as real, IpLevel(cfg, s, ip, now) + cfg.ipRate * (later - now))
  {
    if ip in s.perIP {
      LevelLater(s.perIP[ip].limiter, cfg.ipRate, cfg.ipBurst, now, later);
    } else {
      assert cfg.ipRate * (later - now) >= 0.0;
    }
  }

  lemma GlobalTracksLater(cfg: Config, s: State, draws: seq<Draw>, now: real, later: real)
    requires Sane(cfg) && Inv(cfg, s, now) && now <= later
    ensures IsLeast(draws, Admitted(), now, cfg.globalRate, cfg.globalBurst, GlobalLevel(cfg, s, now))
        ==> IsLeast(draws, Admitted(), later, cfg.globalRate, cfg.globalBurst, GlobalLevel(cfg, s, later))
  {
    LevelLater(s.global, cfg.globalRate, cfg.globalBurst, now, later);
    LeastLater(draws, Admitted(), now, later, cfg.globalRate, cfg.globalBurst,
               GlobalLevel(cfg, s, now), GlobalLevel(cfg, s, later));
  }

  lemma IpTracksLater(cfg: Config, s: State, draws: seq<Draw>, ip: string, now: real, later: real)
    requires Sane(cfg) && Inv(cfg, s, now) && now <= later
    ensures IsLeast(draws, ServedTo(ip), now, cfg.ipRate, cfg.ipBurst, IpLevel(cfg, s, ip, now))
        ==> IsLeast(draws, ServedTo(ip), later, cfg.ipRate, cfg.ipBurst, IpLevel(cfg, s, ip, later))
  {
    IpLevelLater(cfg, s, ip, now, later);
    LeastLater(draws, ServedTo(ip), now, later, cfg.ipRate, cfg.ipBurst,
               IpLevel(cfg, s, ip, now), IpLevel(cfg, s, ip, later));
  }

  lemma TracksLater(cfg: Config, s: State, draws: seq<Draw>, now: real, later: real)
    requires Sane(cfg) && Inv(cfg, s, now) && now <= later
    ensures Tracks(cfg, s, draws, now) ==> Tracks(cfg, s, draws, later)
  {
    GlobalTracksLater(cfg, s, draws, now, later);
    forall ip
      ensures IsLeast(draws, ServedTo(ip), now, cfg.ipRate, cfg.ipBurst, IpLevel(cfg, s, ip, now))
          ==> IsLeast(draws, ServedTo(ip), later, cfg.ipRate, cfg.ipBurst, IpLevel(cfg, s, ip, later))
    {
      IpTracksLater(cfg, s, draws, ip, now, later);
    }
  }

  // The limiter and the ledger judge an event alike.
  lemma SameJudgement(cfg: Config, s: State, draws: seq<Draw>, e: Event)
    requires Tracks(cfg, s, draws, e.now)
    ensures Judge(cfg, draws, e) == Draw(e,
      e.Request? && Admits(s.global, cfg.globalRate, cfg.globalBurst, e.now),
      e.Request? && Served(cfg, s, e.ip, e.now))
  {
    LeastDecides(draws, Admitted(), e.now, cfg.globalRate, cfg.globalBurst, GlobalLevel(cfg, s, e.now));
    if e.Request? {
      LeastDecides(draws, ServedTo(e.ip), e.now, cfg.ipRate, cfg.ipBurst, IpLevel(cfg, s, e.ip, e.now));
    }
  }

  lemma GlobalDraw(cfg: Config, s: State, e: Event, evicting: bool)
    ensures GlobalLevel(cfg, Step(cfg, s, e, evicting), e.now)
         == GlobalLevel(cfg, s, e.now)
            - One(e.Request? && Admits(s.global, cfg.globalRate, cfg.globalBurst, e.now))
  {
    if e.Request? && Admits(s.global, cfg.globalRate, cfg.globalBurst, e.now) {
      LevelAfterAllow(s.global, cfg.globalRate, cfg.globalBurst, e.now);
    }
  }

  lemma TracksStep(cfg: Config, s: State, draws: seq<Draw>, e: Event, evicting: bool)
    requires Sane(cfg) && (evicting ==> RefillsWithinSweep(cfg)) && Inv(cfg, s, e.now) && Tracks(cfg, s, draws, e.now)
    ensures Tracks(cfg, Step(cfg, s, e, evicting), draws + [Judge(cfg, draws, e)], e.now)
  {
    var d, t := Judge(cfg, draws, e), Step(cfg, s, e, evicting);
    SameJudgement(cfg, s, draws, e);
    GlobalDraw(cfg, s, e, evicting);
    LeastAfter(draws, Admitted(), d, cfg.globalRate, cfg.globalBurst, GlobalLevel(cfg, s, e.now));
    forall ip ensures IsLeast(draws + [d], ServedTo(ip), e.now, cfg.ipRate, cfg.ipBurst, IpLevel(cfg, t, ip, e.now)) {
      IpLevelStep(cfg, s, e, evicting, ip);
      LeastAfter(draws, ServedTo(ip), d, cfg.ipRate, cfg.ipBurst, IpLevel(cfg, s, ip, e.now));
      assert ServedTo(ip)(d) == Serves(cfg, Is(ip))(s, e);
    }
  }

  lemma {:induction false} OrderedInit(events: seq<Event>, from: real)
    requires events != [] && Ordered(events, from)
    ensures Ordered(events[..|events| - 1], from)
    ensures End(events[..|events| - 1], from) <= events[|events| - 1].now
    decreases |events|
  {
    var n := |events| - 1;
    if n > 0 {
      OrderedInit(events[1..], events[0].now);
      assert events[..n][1..] == events[1..][..n - 1];
      assert events[..n][0] == events[0];
      EndIsLater(events[..n], from);
    }
  }

  lemma {:induction false} AfterSnoc(step: (State, Event) -> State, s: State, events: seq<Event>, e: Event)
    ensures After(step, s, events + [e]) == step(After(step, s, events), e)
    decreases |events|
  {
    if events == [] {
      assert [] + [e] == [e] && [e][1..] == [];
    } else {
      assert (events + [e])[1..] == events[1..] + [e];
      AfterSnoc(step, step(s, events[0]), events[1..], e);
    }
  }

  // After these events the limiter stands where the ledger says.
  ghost predicate Follows(cfg: Config, start: real, events: seq<Event>, evicting: bool)
  {
    var s, now := After(Steps(cfg, evicting), Start(cfg, start), events), End(events, start);
    Inv(cfg, s, now) && Tracks(cfg, s, Ledger(cfg, events), now)
  }

  lemma FollowsStep(cfg: Config, start: real, init: seq<Event>, e: Event, evicting: bool)
    requires Sane(cfg) && (evicting ==> RefillsWithinSweep(cfg)) && End(init, start) <= e.now
    ensures Follows(cfg, start, init, evicting) ==> Follows(cfg, start, init + [e], evicting)
  {
    if Follows(cfg, start, init, evicting) {
      var s, draws := After(Steps(cfg, evicting), Start(cfg, start), init), Ledger(cfg, init);
      assert (init + [e])[..|init|] == init;
      AfterSnoc(Steps(cfg, evicting), Start(cfg, start), init, e);
      TracksLater(cfg, s, draws, End(init, start), e.now);
      InvLater(cfg, s, End(init, start), e.now);
      StepKeepsInv(cfg, s, e, evicting, e.now);
      TracksStep(cfg, s, draws, e, evicting);
    }
  }

  lemma NextJudged(cfg: Config, start: real, init: seq<Event>, e: Event, evicting: bool)
    requires Sane(cfg) && End(init, start) <= e.now
    ensures var s := After(Steps(cfg, evicting), Start(cfg, start), init);
            Follows(cfg, start, init, evicting) && e.Request? ==>
              Judge(cfg, Ledger(cfg, init), e).served == Served(cfg, s, e.ip, e.now)
  {
    if Follows(cfg, start, init, evicting) {
      var s := After(Steps(cfg, evicting), Start(cfg, start), init);
      TracksLater(cfg, s, Ledger(cfg, init), End(init, start), e.now);
      SameJudgement(cfg, s, Ledger(cfg, init), e);
    }
  }

  lemma LedgerSnoc(cfg: Config, init: seq<Event>, e: Event)
    ensures var before := Ledger(cfg, init);
            && Ledger(cfg, init + [e]) == before + [Judge(cfg, before, e)]
            && AnswersIn(Ledger(cfg, init + [e]))
               == AnswersIn(before) + if e.Request? then [Judge(cfg, before, e).served] else []
  {
    var before := Ledger(cfg, init);
    var d := Judge(cfg, before, e);
    assert (init + [e])[..|init|] == init;
    assert Ledger(cfg, init + [e]) == before + [d];
    assert (before + [d])[..|before|] == before && d.event == e;
  }

  lemma AnswerStep(cfg: Config, start: real, init: seq<Event>, e: Event, evicting: bool)
    requires Sane(cfg) && End(init, start) <= e.now
    requires Answers(cfg, Start(cfg, start), init, evicting) == AnswersIn(Ledger(cfg, init))
    ensures Follows(cfg, start, init, evicting) ==>
      Answers(cfg, Start(cfg, start), init + [e], evicting) == AnswersIn(Ledger(cfg, init + [e]))
  {
    NextJudged(cfg, start, init, e, evicting);
    LastAnswer(cfg, start, init, e, evicting);
    LedgerSnoc(cfg, init, e);
  }

  lemma StartFollows(cfg: Config, start: real, evicting: bool)
    ensures Follows(cfg, start, [], evicting)
    ensures Answers(cfg, Start(cfg, start), [], evicting) == AnswersIn(Ledger(cfg, []))
  {
  }

  ghost predicate Keeps(cfg: Config, start: real, events: seq<Event>, evicting: bool)
  {
    Follows(cfg, start, events, evicting)
    && Answers(cfg, Start(cfg, start), events, evicting) == AnswersIn(Ledger(cfg, events))
  }

  lemma KeepsStep(cfg: Config, start: real, init: seq<Event>, e: Event, evicting: bool)
    requires Sane(cfg) && (evicting ==> RefillsWithinSweep(cfg)) && End(init, start) <= e.now
    ensures Keeps(cfg, start, init, evicting) ==> Keeps(cfg, start, init + [e], evicting)
  {
    if Keeps(cfg, start, init, evicting) {
      FollowsStep(cfg, start, init, e, evicting);
      AnswerStep(cfg, start, init, e, evicting);
    }
  }

  // What holds at the start and is kept by every event that comes in order holds after any events in order.
  lemma {:induction false} EventByEvent(p: seq<Event> -> bool, start: real, events: seq<Event>)
    requires p([]) && Ordered(events, start)
    requires forall init, e: Event :: p(init) && End(init, start) <= e.now ==> p(init + [e])
    ensures p(events)
  {
    if events != [] {
      var n := |events| - 1;
      OrderedInit(events, start);
      EventByEvent(p, start, events[..n]);
      assert events == events[..n] + [events[n]];
    }
  }

  lemma LimiterFollows(cfg: Config, start: real, events: seq<Event>, evicting: bool)
    requires Sane(cfg) && (evicting ==> RefillsWithinSweep(cfg)) && Ordered(events, start)
    ensures Follows(cfg, start, events, evicting)
    ensures Answers(cfg, Start(cfg, start), events, evicting) == AnswersIn(Ledger(cfg, events))
  {
    var p := (es: seq<Event>) => Keeps(cfg, start, es, evicting);
    StartFollows(cfg, start, evicting);
    forall init, e: Event | p(init) && End(init, start) <= e.now ensures p(init + [e]) {
      KeepsStep(cfg, start, init, e, evicting);
    }
    EventByEvent(p, start, events);
  }

  lemma LastAnswer(cfg: Config, start: real, init: seq<Event>, e: Event, evicting: bool)
    ensures var s := After(Steps(cfg, evicting), Start(cfg, start), init);
            Answers(cfg, Start(cfg, start), init + [e], evicting)
            == Answers(cfg, Start(cfg, start), init, evicting)
               + if e.Request? then [Served(cfg, s, e.ip, e.now)] else []
  {
    var s := After(Steps(cfg, evicting), Start(cfg, start), init);
    AnswersConcat(cfg, Start(cfg, start), init, [e], evicting);
    assert [e][1..] == [] && Answers(cfg, Step(cfg, s, e, evicting), [], evicting) == [];
  }

  // For every arrival sequence and every sweep schedule the limiter answers as the ledger does.
  lemma AnswersAreTheLedgers(cfg: Config, start: real, events: seq<Event>)
    requires Sane(cfg) && RefillsWithinSweep(cfg) && Ordered(events, start)
    ensures Answers(cfg, Start(cfg, start), events, true) == AnswersIn(Ledger(cfg, events))
  {
    LimiterFollows(cfg, start, events, true);
  }

  // ---------- Who keeps to the allowance is served ----------

  function IsRequest(): Event -> bool { (e: Event) => e.Request? }

  function RequestOf(ip: string): Event -> bool { (e: Event) => e.Request? && e.ip == ip }

  function CountEvents(events: seq<Event>, p: Event -> bool): nat
  {
    if events == [] then 0
    else CountEvents(events[..|events| - 1], p) + if p(events[|events| - 1]) then 1 else 0
  }

  // The arrivals p in the window from event i to event k are within the allowance.
  predicate WindowConforms(events: seq<Event>, p: Event -> bool, i: nat, k: nat, rate: real, burst: nat)
    requires i <= k < |events|
  {
    CountEvents(events[i..k + 1], p) as real <= burst as real + rate * (events[k].now - events[i].now)
  }

  // So are all windows that end with such an arrival.
  predicate Conforms(events: seq<Event>, p: Event -> bool, rate: real, burst: nat)
  {
    forall i, k :: 0 <= i <= k < |events| && p(events[k]) ==> WindowConforms(events, p, i, k, rate, burst)
  }

  predicate LastConforms(events: seq<Event>, p: Event -> bool, rate: real, burst: nat)
    requires events != []
  {
    var last := |events| - 1;
    p(events[last]) ==> forall i :: 0 <= i <= last ==> WindowConforms(events, p, i, last, rate, burst)
  }

  lemma SliceOfPrefix(events: seq<Event>, n: nat, i: nat, k: nat)
    requires i <= k <= n <= |events|
    ensures events[..n][i..k] == events[i..k]
  {
  }

  lemma ConformsStep(events: seq<Event>, p: Event -> bool, rate: real, burst: nat)
    requires events != []
    ensures Conforms(events, p, rate, burst)
       <==> Conforms(events[..|events| - 1], p, rate, burst) && LastConforms(events, p, rate, burst)
  {
    var n := |events| - 1;
    forall i, k | 0 <= i <= k < n
      ensures WindowConforms(events, p, i, k, rate, burst) == WindowConforms(events[..n], p, i, k, rate, burst)
    {
      SliceOfPrefix(events, n, i, k + 1);
    }
  }

  // As long as everything is served, hits and arrivals number the same in every window.
  ghost predicate SameCounts(draws: seq<Draw>, events: seq<Event>, hit: Draw -> bool, p: Event -> bool)
  {
    |draws| == |events| && forall i :: 0 <= i < |draws| ==> hit(draws[i]) == p(events[i])
  }

  lemma {:induction false} CountsAgree(draws: seq<Draw>, events: seq<Event>, hit: Draw -> bool, p: Event -> bool)
    requires SameCounts(draws, events, hit, p)
    ensures CountDraws(draws, hit) == CountEvents(events, p)
  {
    if draws != [] {
      CountsAgree(draws[..|draws| - 1], events[..|events| - 1], hit, p);
    }
  }

  lemma LastWindow(draws: seq<Draw>, events: seq<Event>, hit: Draw -> bool, p: Event -> bool, i: nat,
                   rate: real, burst: nat)
    requires |events| == |draws| + 1 && i <= |draws| && p(events[|draws|])
    requires SameCounts(draws, events[..|draws|], hit, p)
    requires forall j :: 0 <= j < |draws| ==> draws[j].event == events[j]
    ensures WindowConforms(events, p, i, |draws|, rate, burst)
       <==> if i == |draws| then 1 <= burst
            else HasRoomFrom(draws, hit, i, events[|draws|].now, rate, burst)
  {
    var n := |draws|;
    CountsAgree(draws[i..], events[..n][i..], hit, p);
    var window := events[i..n + 1];
    assert window[..|window| - 1] == events[..n][i..];
    if i == n {
      assert rate * (events[n].now - events[n].now) == 0.0;
      assert events[..n][i..] == [];
    }
  }

  // The last arrival has room exactly when its windows conform.
  lemma RoomIfConforms(draws: seq<Draw>, events: seq<Event>, hit: Draw -> bool, p: Event -> bool,
                       rate: real, burst: nat)
    requires |events| == |draws| + 1 && SameCounts(draws, events[..|draws|], hit, p)
    requires forall j :: 0 <= j < |draws| ==> draws[j].event == events[j]
    ensures p(events[|draws|]) ==>
      (LastConforms(events, p, rate, burst) <==> HasRoom(draws, hit, events[|draws|].now, rate, burst))
  {
    if p(events[|draws|]) {
      var n := |draws|;
      forall i | 0 <= i <= n
        ensures WindowConforms(events, p, i, n, rate, burst)
           <==> if i == n then 1 <= burst else HasRoomFrom(draws, hit, i, events[n].now, rate, burst)
      {
        LastWindow(draws, events, hit, p, i, rate, burst);
      }
      assert LastConforms(events, p, rate, burst) ==> WindowConforms(events, p, n, n, rate, burst);
    }
  }

  ghost predicate AllServed(draws: seq<Draw>)
  {
    forall i :: 0 <= i < |draws| && draws[i].event.Request? ==> draws[i].admitted && draws[i].served
  }

  ghost predicate AllConform(cfg: Config, events: seq<Event>)
  {
    && Conforms(events, IsRequest(), cfg.globalRate, cfg.globalBurst)
    && forall ip :: Conforms(events, RequestOf(ip), cfg.ipRate, cfg.ipBurst)
  }

  // Only requests are served, and only admitted ones.
  predicate IsOrderly(d: Draw) { (d.admitted ==> d.event.Request?) && (d.served ==> d.admitted) }

  ghost predicate AllOrderly(draws: seq<Draw>) { forall i :: 0 <= i < |draws| ==> IsOrderly(draws[i]) }

  lemma JudgedOrderly(cfg: Config, before: seq<Draw>, e: Event)
    ensures IsOrderly(Judge(cfg, before, e))
  {
  }

  lemma {:induction false} LedgerIsOrderly(cfg: Config, events: seq<Event>)
    ensures AllOrderly(Ledger(cfg, events))
  {
    if events != [] {
      var n := |events| - 1;
      var before, all := Ledger(cfg, events[..n]), Ledger(cfg, events);
      LedgerIsOrderly(cfg, events[..n]);
      JudgedOrderly(cfg, before, events[n]);
      assert all == before + [Judge(cfg, before, events[n])];
      forall i | 0 <= i < |all| ensures IsOrderly(all[i]) {
        assert i < n ==> all[i] == before[i];
      }
    }
  }

  lemma ServedCountTheSame(cfg: Config, events: seq<Event>, ip: string)
    requires AllServed(Ledger(cfg, events))
    ensures SameCounts(Ledger(cfg, events), events, Admitted(), IsRequest())
    ensures SameCounts(Ledger(cfg, events), events, ServedTo(ip), RequestOf(ip))
  {
    var draws := Ledger(cfg, events);
    LedgerIsOrderly(cfg, events);
    forall i | 0 <= i < |draws|
      ensures Admitted()(draws[i]) == IsRequest()(events[i]) && ServedTo(ip)(draws[i]) == RequestOf(ip)(events[i])
    {
      assert IsOrderly(draws[i]) && draws[i].event == events[i];
    }
  }

  // The last request of a history that was served in full is served exactly when its windows conform.
  lemma LastIsServedIff(cfg: Config, events: seq<Event>)
    requires events != []
    ensures var n := |events| - 1;
            AllServed(Ledger(cfg, events[..n])) && events[n].Request? ==>
              (Judge(cfg, Ledger(cfg, events[..n]), events[n]).served <==>
                 LastConforms(events, IsRequest(), cfg.globalRate, cfg.globalBurst)
                 && LastConforms(events, RequestOf(events[n].ip), cfg.ipRate, cfg.ipBurst))
  {
    var n := |events| - 1;
    var e, draws := events[n], Ledger(cfg, events[..n]);
    if AllServed(draws) && e.Request? {
      ServedCountTheSame(cfg, events[..n], e.ip);
      RoomIfConforms(draws, events, Admitted(), IsRequest(), cfg.globalRate, cfg.globalBurst);
      RoomIfConforms(draws, events, ServedTo(e.ip), RequestOf(e.ip), cfg.ipRate, cfg.ipBurst);
    }
  }

  lemma AllConformStep(cfg: Config, events: seq<Event>)
    requires events != []
    ensures var n := |events| - 1;
            AllConform(cfg, events) <==>
              && AllConform(cfg, events[..n])
              && (events[n].Request? ==>
                    LastConforms(events, IsRequest(), cfg.globalRate, cfg.globalBurst)
                    && LastConforms(events, RequestOf(events[n].ip), cfg.ipRate, cfg.ipBurst))
  {
    var n := |events| - 1;
    ConformsStep(events, IsRequest(), cfg.globalRate, cfg.globalBurst);
    forall ip
      ensures Conforms(events, RequestOf(ip), cfg.ipRate, cfg.ipBurst)
         <==> Conforms(events[..n], RequestOf(ip), cfg.ipRate, cfg.ipBurst)
              && (events[n].Request? && events[n].ip == ip ==>
                    LastConforms(events, RequestOf(ip), cfg.ipRate, cfg.ipBurst))
    {
      ConformsStep(events, RequestOf(ip), cfg.ipRate, cfg.ipBurst);
    }
  }

  lemma AllServedStep(cfg: Config, events: seq<Event>)
    requires events != []
    ensures var n := |events| - 1;
            var before := Ledger(cfg, events[..n]);
            AllServed(Ledger(cfg, events)) <==>
              AllServed(before) && (events[n].Request? ==> Judge(cfg, before, events[n]).served)
  {
    var n := |events| - 1;
    var before, all := Ledger(cfg, events[..n]), Ledger(cfg, events);
    var last := Judge(cfg, before, events[n]);
    JudgedOrderly(cfg, before, events[n]);
    assert all == before + [last];
    assert forall i :: 0 <= i < n ==> all[i] == before[i];
    assert all[n] == last && last.event == events[n];
  }

  lemma {:induction false} LedgerServesIff(cfg: Config, events: seq<Event>)
    ensures AllServed(Ledger(cfg, events)) <==> AllConform(cfg, events)
  {
    if events != [] {
      LedgerServesIff(cfg, events[..|events| - 1]);
      AllServedStep(cfg, events);
      AllConformStep(cfg, events);
      LastIsServedIff(cfg, events);
    }
  }

  lemma {:induction false} NoRefusalIff(draws: seq<Draw>)
    requires AllOrderly(draws)
    ensures false !in AnswersIn(draws) <==> AllServed(draws)
  {
    if draws != [] {
      var n := |draws| - 1;
      NoRefusalIff(draws[..n]);
      var before, last := AnswersIn(draws[..n]), if draws[n].event.Request? then [draws[n].served] else [];
      assert AnswersIn(draws) == before + last && IsOrderly(draws[n]);
      assert false in before + last <==> false in before || false in last;
    }
  }

  // A history is served without a single refusal if and only if the requests of every address number
  // at most ipBurst + ipRate * T in every window of length T, and all requests together at most
  // globalBurst + globalRate * T.
  lemma ServedInFullIff(cfg: Config, start: real, events: seq<Event>)
    requires Sane(cfg) && RefillsWithinSweep(cfg) && Ordered(events, start)
    ensures false !in Answers(cfg, Start(cfg, start), events, true) <==> AllConform(cfg, events)
  {
    AnswersAreTheLedgers(cfg, start, events);
    LedgerIsOrderly(cfg, events);
    NoRefusalIff(Ledger(cfg, events));
    LedgerServesIff(cfg, events);
  }
}
