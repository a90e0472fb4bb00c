// The worker's verdict cache: bounded, insertion-ordered, with a lifetime that depends on whether
// anything was found, at most one lookup in flight per image, and invalidation when the user signs.
// Lookups are asynchronous, so the cache is a machine over the events of the browser's event loop.
module VerdictCache {
  import opened Text
  import opened JsMaps
  import opened Verdicts

  type Answer = map<string, CategoryResult>

  const TTL_OK: int := 1_800_000    // 30 minutes, in milliseconds
  const TTL_NULL: int := 300_000    // 5 minutes
  const MAX_SIZE: nat := 500

  function Ttl(a: Answer): int { if |a| > 0 then TTL_OK else TTL_NULL }

  // `seen` counts the user's signatures on the image that were in the log when the lookup read it; a
  // lookup that ends before it reads the log has seen nothing, and its result is empty.
  datatype Cached = Cached(result: Answer, fetchedAt: int, seen: Option<nat>)

  // A lookup in flight: what it has seen so far, and its result once it has been stored.
  datatype Flight = Flight(seen: Option<nat>, result: Option<Answer>)

  datatype Stored = Stored(url: string, result: Answer, at: int)

  // The two maps of the worker and its clock; beside them the user's signatures on each image that the
  // log holds, how many of those the worker has not yet been told of, and the results stored so far.
  datatype State = State(cache: JsMap<string, Cached>, pending: map<string, Flight>, now: int,
                         logged: map<string, nat>, unconfirmed: map<string, nat>, log: seq<Stored>)

  datatype Event =
    | Call(url: string, rejected: bool)   // a verdict request; a URL may be rejected before any fetch
    | Read(url: string)                   // the lookup in flight gets the image's log entries
    | Land(url: string, result: Answer)   // a lookup ends and stores its result
    | Settle(url: string)                 // the first caller resumes and drops the flight
    | Append(url: string)                 // the log stores a signature of the user on the image
    | Sign(url: string)                   // the log's reply arrives: the cached answer is dropped
    | Tick(elapsed: nat)

  // What a request gets: a cached answer, the flight already under way, or a new flight.
  datatype Reply = Hit(result: Answer, seen: Option<nat>) | Joined(seen: Option<nat>) | Launched

  function Init(now: int): State { State(Empty(), map[], now, map[], map[], []) }

  function CountIn(m: map<string, nat>, url: string): nat { if url in m then m[url] else 0 }

  function LoggedFor(s: State, url: string): nat { CountIn(s.logged, url) }

  predicate IsFresh(s: State, url: string)
  {
    url in s.cache.vals && s.now - s.cache.vals[url].fetchedAt < Ttl(s.cache.vals[url].result)
  }

  // cacheAndReturn
  function Store(s: State, url: string, result: Answer, seen: Option<nat>): State
    requires s.cache.Valid()
  {
    var room := if s.cache.Size() >= MAX_SIZE then s.cache.Delete(s.cache.keys[0]) else s.cache;
    s.(cache := room.Set(url, Cached(result, s.now, seen)), log := s.log + [Stored(url, result, s.now)])
  }

  // A new lookup up to its first suspension. A rejected URL stores the empty result at once.
  function Launch(s: State, url: string, rejected: bool): State
    requires s.cache.Valid()
  {
    if rejected then
      var t := Store(s, url, map[], None);
      t.(pending := t.pending[url := Flight(None, Some(map[]))])
    else s.(pending := s.pending[url := Flight(None, None)])
  }

  function ReplyTo(s: State, url: string): Reply
  {
    if IsFresh(s, url) then Hit(s.cache.vals[url].result, s.cache.vals[url].seen)
    else if url in s.pending then Joined(s.pending[url].seen)
    else Launched
  }

  // Every way to end before the log has been read stores the empty result.
  predicate Enabled(s: State, e: Event)
  {
    match e
    case Read(url) => url in s.pending && s.pending[url] == Flight(None, None)
    case Land(url, result) =>
      url in s.pending && s.pending[url].result.None? && (s.pending[url].seen.None? ==> result == map[])
    case Settle(url) => url in s.pending && s.pending[url].result.Some?
    case Sign(url) => CountIn(s.unconfirmed, url) > 0
    case _ => true
  }

  function Step(s: State, e: Event): State
    requires s.cache.Valid() && Enabled(s, e)
  {
    match e
    case Call(url, rejected) =>
      if IsFresh(s, url) then s
      else
        var s1 := s.(cache := s.cache.Delete(url));
        if url in s.pending then s1 else Launch(s1, url, rejected)
    case Read(url) => s.(pending := s.pending[url := Flight(Some(LoggedFor(s, url)), None)])
    case Land(url, result) =>
      var s1 := Store(s, url, result, s.pending[url].seen);
      s1.(pending := s1.pending[url := s.pending[url].(result := Some(result))])
    case Settle(url) => s.(pending := s.pending - {url})
    case Append(url) =>
      s.(logged := s.logged[url := LoggedFor(s, url) + 1],
         unconfirmed := s.unconfirmed[url := CountIn(s.unconfirmed, url) + 1])
    case Sign(url) =>
      s.(cache := s.cache.Delete(url), unconfirmed := s.unconfirmed[url := CountIn(s.unconfirmed, url) - 1])
    case Tick(elapsed) => s.(now := s.now + elapsed)
  }

  ghost predicate Run(s: State, events: seq<Event>, t: State)
    decreases |events|
  {
    s.cache.Valid() &&
    if events == [] then s == t
    else Enabled(s, events[0]) && Run(Step(s, events[0]), events[1..], t)
  }

  // ---------- The invariant ----------

  // Nobody has seen more than the log holds.
  predicate NotAhead(s: State, url: string, seen: Option<nat>)
  {
    seen.Some? ==> seen.value <= LoggedFor(s, url)
  }

  ghost predicate OldestFirst(keys: seq<string>, vals: map<string, Cached>)
  {
    && (forall i :: 0 <= i < |keys| ==> keys[i] in vals)
    && (forall i, j :: 0 <= i < j < |keys| ==> vals[keys[i]].fetchedAt <= vals[keys[j]].fetchedAt)
  }

  // At most 500 entries, oldest first, none from the future.
  ghost predicate CacheInv(s: State)
  {
    && s.cache.Valid() && s.cache.Size() <= MAX_SIZE && OldestFirst(s.cache.keys, s.cache.vals)
    && (forall url :: url in s.cache.vals ==>
          var c := s.cache.vals[url];
          c.fetchedAt <= s.now && Stored(url, c.result, c.fetchedAt) in s.log && NotAhead(s, url, c.seen))
  }

  // A flight that has not landed finds its url uncached.
  ghost predicate PendingInv(s: State)
  {
    forall url :: url in s.pending ==>
      NotAhead(s, url, s.pending[url].seen) && (s.pending[url].result.None? ==> url !in s.cache.vals)
  }

  ghost predicate Inv(s: State) { CacheInv(s) && PendingInv(s) }

  lemma DeleteKeepsCache(s: State, url: string)
    requires CacheInv(s)
    ensures CacheInv(s.(cache := s.cache.Delete(url)))
    ensures url in s.cache.vals ==> |s.cache.Delete(url).keys| < |s.cache.keys|
  {
    DeleteKeepsOrder(s.cache, url);
  }

  // Deleting leaves the other entries in their order.
  lemma DeleteKeepsOrder(m: JsMap<string, Cached>, url: string)
    requires m.Valid() && OldestFirst(m.keys, m.vals)
    ensures var r := m.Delete(url);
            OldestFirst(r.keys, r.vals) && |r.keys| == |m.keys| - (if url in m.vals then 1 else 0)
  {
    DeleteKeepsOthers(m.keys, url);
    WithoutKeepsOrder(m.keys, url, m.vals);
    var keys := Without(m.keys, url);
    forall i | 0 <= i < |keys| ensures keys[i] in m.vals - {url} && (m.vals - {url})[keys[i]] == m.vals[keys[i]] {
      assert keys[i] in keys;
    }
  }

  lemma PrependOlder(k: string, keys: seq<string>, vals: map<string, Cached>)
    requires OldestFirst(keys, vals) && k in vals
    requires forall j :: 0 <= j < |keys| ==> vals[k].fetchedAt <= vals[keys[j]].fetchedAt
    ensures OldestFirst([k] + keys, vals)
  {
  }

  lemma {:induction false} WithoutKeepsOrder(keys: seq<string>, url: string, vals: map<string, Cached>)
    requires OldestFirst(keys, vals)
    ensures OldestFirst(Without(keys, url), vals)
    ensures forall k :: k in Without(keys, url) ==> k in keys
  {
    if keys != [] {
      var r := Without(keys[1..], url);
      WithoutKeepsOrder(keys[1..], url, vals);
      assert forall k :: k in keys[1..] ==> k in keys;
      if keys[0] != url {
        forall j | 0 <= j < |r| ensures vals[keys[0]].fetchedAt <= vals[r[j]].fetchedAt {
          assert r[j] in keys[1..];
          var k :| 1 <= k < |keys| && keys[k] == r[j];
        }
        PrependOlder(keys[0], r, vals);
      }
    }
  }

  // Storing a result for an uncached url appends it, after evicting the first entry if the cache is full.
  lemma StoreKeepsCache(s: State, url: string, result: Answer, seen: Option<nat>)
    requires CacheInv(s) && url !in s.cache.vals && NotAhead(s, url, seen)
    ensures CacheInv(Store(s, url, result, seen))
    ensures var t := Store(s, url, result, seen);
            t.cache.keys == (if |s.cache.keys| >= MAX_SIZE then s.cache.keys[1..] else s.cache.keys) + [url]
  {
    if |s.cache.keys| >= MAX_SIZE {
      var first := s.cache.keys[0];
      var room := s.(cache := s.cache.Delete(first));
      assert first in s.cache.keys;
      DeleteKeepsCache(s, first);
      DeleteKeepsOthers(s.cache.keys, first);
      StoreWithRoom(room, url, result, seen);
      assert Store(room, url, result, seen) == Store(s, url, result, seen);
    } else {
      StoreWithRoom(s, url, result, seen);
    }
  }

  lemma FirstIsOldest(s: State)
    requires CacheInv(s) && s.cache.keys != []
    ensures forall k :: k in s.cache.vals ==> s.cache.vals[s.cache.keys[0]].fetchedAt <= s.cache.vals[k].fetchedAt
  {
    forall k | k in s.cache.vals ensures s.cache.vals[s.cache.keys[0]].fetchedAt <= s.cache.vals[k].fetchedAt {
      assert k in s.cache.keys;
      var i :| 0 <= i < |s.cache.keys| && s.cache.keys[i] == k;
    }
  }

  lemma AppendNewest(keys: seq<string>, vals: map<string, Cached>, k: string, c: Cached)
    requires OldestFirst(keys, vals) && k !in vals
    requires forall i :: 0 <= i < |keys| ==> vals[keys[i]].fetchedAt <= c.fetchedAt
    ensures OldestFirst(keys + [k], vals[k := c])
  {
  }

  lemma StoreWithRoom(s: State, url: string, result: Answer, seen: Option<nat>)
    requires CacheInv(s) && url !in s.cache.vals && NotAhead(s, url, seen) && s.cache.Size() < MAX_SIZE
    ensures CacheInv(Store(s, url, result, seen))
  {
    assert forall i :: 0 <= i < |s.cache.keys| ==> s.cache.keys[i] in s.cache.vals;
    AppendNewest(s.cache.keys, s.cache.vals, url, Cached(result, s.now, seen));
  }

  // Storing a result touches no other flight.
  lemma StoreKeepsPending(s: State, url: string, result: Answer, seen: Option<nat>)
    requires CacheInv(s) && PendingInv(s) && NotAhead(s, url, seen)
    ensures PendingInv(Store(s, url, result, seen).(pending := s.pending[url := Flight(seen, Some(result))]))
  {
  }

  // A lookup that stores its result, whether or not it was announced as pending before.
  lemma StoreKeepsInv(s: State, url: string, result: Answer, seen: Option<nat>)
    requires Inv(s) && url !in s.cache.vals && NotAhead(s, url, seen)
    ensures Inv(Store(s, url, result, seen).(pending := s.pending[url := Flight(seen, Some(result))]))
  {
    StoreKeepsCache(s, url, result, seen);
    StoreKeepsPending(s, url, result, seen);
  }

  lemma DeleteKeepsInv(s: State, url: string)
    requires Inv(s)
    ensures Inv(s.(cache := s.cache.Delete(url)))
  {
    DeleteKeepsCache(s, url);
  }

  lemma LaunchKeepsInv(s: State, url: string)
    requires Inv(s) && url !in s.cache.vals
    ensures Inv(s.(pending := s.pending[url := Flight(None, None)]))
  {
  }

  lemma CallKeepsInv(s: State, url: string, rejected: bool)
    requires Inv(s)
    ensures Inv(Step(s, Call(url, rejected)))
  {
    if !IsFresh(s, url) {
      var s1 := s.(cache := s.cache.Delete(url));
      DeleteKeepsInv(s, url);
      if url !in s.pending {
        if rejected {
          StoreKeepsInv(s1, url, map[], None);
        } else {
          LaunchKeepsInv(s1, url);
        }
      }
    }
  }

  lemma LandKeepsInv(s: State, url: string, result: Answer)
    requires Inv(s) && Enabled(s, Land(url, result))
    ensures Inv(Step(s, Land(url, result)))
  {
    StoreKeepsInv(s, url, result, s.pending[url].seen);
  }

  lemma StepKeepsInv(s: State, e: Event)
    requires Inv(s) && Enabled(s, e)
    ensures Inv(Step(s, e))
  {
    match e
    case Call(url, rejected) => CallKeepsInv(s, url, rejected);
    case Land(url, result) => LandKeepsInv(s, url, result);
    case Sign(url) => DeleteKeepsCache(s, url);
    case _ =>
  }

  lemma {:induction false} RunKeepsInv(s: State, events: seq<Event>, t: State)
    requires Inv(s) && Run(s, events, t)
    ensures Inv(t)
    decreases |events|
  {
    if events != [] {
      StepKeepsInv(s, events[0]);
      RunKeepsInv(Step(s, events[0]), events[1..], t);
    }
  }

  ghost predicate Reachable(t: State)
  {
    exists now, events :: Run(Init(now), events, t)
  }

  lemma ReachableStatesAreSafe(t: State)
    requires Reachable(t)
    ensures Inv(t)
  {
    var now, events :| Run(Init(now), events, t);
    RunKeepsInv(Init(now), events, t);
  }

  // ---------- What the invariant gives ----------

  // In milliseconds: 5 minutes for an answer that reports nothing, else 30.
  function Lifetime(a: Answer): int { 60_000 * if a == map[] then 5 else 30 }

  // A cache hit returns a result that was stored for this image recently: within 30 minutes if it
  // has verdicts, within 5 if it has none.
  lemma HitsAreRecent(s: State, url: string)
    requires Reachable(s)
    ensures ReplyTo(s, url).Hit? ==>
      exists at :: Stored(url, ReplyTo(s, url).result, at) in s.log
                   && at <= s.now < at + Lifetime(ReplyTo(s, url).result)
  {
    ReachableStatesAreSafe(s);
    if ReplyTo(s, url).Hit? {
      var c := s.cache.vals[url];
      assert Stored(url, c.result, c.fetchedAt) in s.log;
    }
  }

  // A stored answer is what every request gets for its lifetime, and for not a millisecond longer.
  lemma AnswersLast(s: State, url: string, result: Answer, elapsed: nat)
    requires Reachable(s) && Enabled(s, Land(url, result))
    ensures s.cache.Valid() && Step(s, Land(url, result)).cache.Valid()
    ensures var t := Step(Step(s, Land(url, result)), Tick(elapsed));
            elapsed < Lifetime(result) <==> ReplyTo(t, url) == Hit(result, s.pending[url].seen)
  {
    ReachableStatesAreSafe(s);
    LandKeepsInv(s, url, result);
    StoreLeavesOthers(s, url, result, s.pending[url].seen, url);
    var t := Step(Step(s, Land(url, result)), Tick(elapsed));
    HitWhileFresh(t, url, Cached(result, s.now, s.pending[url].seen), elapsed);
  }

  lemma HitWhileFresh(t: State, url: string, c: Cached, elapsed: nat)
    requires url in t.cache.vals && t.cache.vals[url] == c && t.now == c.fetchedAt + elapsed
    ensures elapsed < Lifetime(c.result) <==> ReplyTo(t, url) == Hit(c.result, c.seen)
  {
    assert c.result == map[] <==> |c.result| == 0;
  }

  // A landing lookup finds its image uncached, so its result goes to the end of the cache, and what
  // it evicts from a full cache is an oldest entry.
  lemma LandingAppends(s: State, url: string, result: Answer)
    requires Reachable(s) && Enabled(s, Land(url, result))
    ensures s.cache.Valid() && url !in s.cache.vals
    ensures var t := Step(s, Land(url, result));
            && t.cache.keys == (if |s.cache.keys| == MAX_SIZE then s.cache.keys[1..] else s.cache.keys) + [url]
            && |t.cache.keys| <= MAX_SIZE
    ensures |s.cache.keys| == MAX_SIZE ==>
      forall k :: k in s.cache.vals ==> s.cache.vals[s.cache.keys[0]].fetchedAt <= s.cache.vals[k].fetchedAt
  {
    ReachableStatesAreSafe(s);
    StoreKeepsCache(s, url, result, s.pending[url].seen);
    if s.cache.keys != [] {
      FirstIsOldest(s);
    }
  }

  // ---------- One flight per image ----------

  predicate Launches(s: State, e: Event, url: string)
  {
    e.Call? && e.url == url && ReplyTo(s, url).Launched?
  }

  function CountLaunches(s: State, events: seq<Event>, t: State, url: string): nat
    requires Run(s, events, t)
    decreases |events|
  {
    if events == [] then 0
    else (if Launches(s, events[0], url) then 1 else 0) + CountLaunches(Step(s, events[0]), events[1..], t, url)
  }

  function CountSettled(events: seq<Event>, url: string): nat
  {
    if events == [] then 0 else (if events[0] == Settle(url) then 1 else 0) + CountSettled(events[1..], url)
  }

  // Launched lookups of an image are settled ones plus the one in flight: there are never two.
  lemma {:induction false} SingleFlight(s: State, events: seq<Event>, t: State, url: string)
    requires Run(s, events, t)
    ensures CountLaunches(s, events, t, url) + (if url in s.pending then 1 else 0)
         == CountSettled(events, url) + (if url in t.pending then 1 else 0)
    decreases |events|
  {
    if events != [] {
      SingleFlight(Step(s, events[0]), events[1..], t, url);
    }
  }

  // ---------- Freshness after signing ----------

  // Rests on a reading of the log that misses a signature the log holds.
  predicate IsStale(s: State, url: string, seen: Option<nat>)
  {
    seen.Some? && seen.value < LoggedFor(s, url)
  }

  // The flight of the url has read the log too early.
  predicate StaleFlight(s: State, url: string)
  {
    url in s.pending && IsStale(s, url, s.pending[url].seen)
  }

  // A request made now gets an answer that misses a signature.
  predicate StaleReply(s: State, url: string)
  {
    match ReplyTo(s, url)
    case Launched => false
    case other => IsStale(s, url, other.seen)
  }

  // Nothing cached or in flight for the image misses a signature.
  ghost predicate UpToDate(s: State, url: string)
  {
    !StaleFlight(s, url) && (url in s.cache.vals ==> !IsStale(s, url, s.cache.vals[url].seen))
  }

  // Storing touches the cache entry of its own url only.
  lemma StoreLeavesOthers(s: State, url: string, result: Answer, seen: Option<nat>, other: string)
    requires s.cache.Valid()
    ensures var t := Store(s, url, result, seen);
            && t.cache.vals[url] == Cached(result, s.now, seen)
            && (other != url && other in t.cache.vals ==>
                  other in s.cache.vals && t.cache.vals[other] == s.cache.vals[other])
  {
  }

  lemma StepKeepsUpToDate(s: State, e: Event, url: string)
    requires Inv(s) && Enabled(s, e) && UpToDate(s, url) && e != Append(url)
    ensures UpToDate(Step(s, e), url)
  {
    match e
    case Call(u, _) => StoreLeavesOthers(s.(cache := s.cache.Delete(u)), u, map[], None, url);
    case Land(u, result) => StoreLeavesOthers(s, u, result, s.pending[u].seen, url);
    case _ =>
  }

  lemma {:induction false} RunKeepsUpToDate(s: State, events: seq<Event>, t: State, url: string)
    requires Inv(s) && Run(s, events, t) && UpToDate(s, url) && Append(url) !in events
    ensures UpToDate(t, url)
    decreases |events|
  {
    if events != [] {
      assert forall e :: e in events[1..] ==> e in events;
      StepKeepsInv(s, events[0]);
      StepKeepsUpToDate(s, events[0], url);
      RunKeepsUpToDate(Step(s, events[0]), events[1..], t, url);
    }
  }

  // No answer misses a signature for as long as the user signs nothing else on the image.
  ghost predicate FreshFromNowOn(s: State, url: string)
  {
    forall events, t :: Run(s, events, t) && Append(url) !in events ==> !StaleReply(t, url)
  }

  // When the log's reply to a signature arrives, later answers are fresh exactly if no lookup in
  // flight read the log before the log stored the signature: such a lookup still hands out, and may
  // still cache, its older result. Without any flight they always are.
  lemma FreshAfterSigningIff(s: State, url: string)
    requires Reachable(s) && Enabled(s, Sign(url))
    ensures s.cache.Valid() && (FreshFromNowOn(Step(s, Sign(url)), url) <==> !StaleFlight(s, url))
    ensures url !in s.pending ==> FreshFromNowOn(Step(s, Sign(url)), url)
  {
    ReachableStatesAreSafe(s);
    var u := Step(s, Sign(url));
    StepKeepsInv(s, Sign(url));
    if StaleFlight(s, url) {
      assert Run(u, [], u) && StaleReply(u, url);
    } else {
      forall events, t | Run(u, events, t) && Append(url) !in events ensures !StaleReply(t, url) {
        RunKeepsUpToDate(u, events, t, url);
      }
    }
  }

  // ---------- Two runs ----------

  lemma RunSnoc(s: State, events: seq<Event>, t: State, e: Event)
    ensures Run(s, events, t) && Enabled(t, e) ==>
      t.cache.Valid() && (Step(t, e).cache.Valid() ==> Run(s, events + [e], Step(t, e)))
    decreases |events|
  {
    if events == [] {
      assert [e][1..] == [] && [] + [e] == [e];
    } else if Run(s, events, t) {
      assert (events + [e])[1..] == events[1..] + [e];
      RunSnoc(Step(s, events[0]), events[1..], t, e);
    }
  }

  lemma ReachableStep(s: State, e: Event)
    requires Reachable(s) && Enabled(s, e)
    ensures s.cache.Valid() && Reachable(Step(s, e))
  {
    var now, events :| Run(Init(now), events, s);
    ReachableStatesAreSafe(s);
    StepKeepsInv(s, e);
    RunSnoc(Init(now), events, s, e);
  }

  // The image's only lookup is in flight and the worker waits for the reply to its only signature.
  function Awaiting(url: string, seen: Option<nat>): State
  {
    State(Empty(), map[url := Flight(seen, None)], 0, map[url := 1], map[url := 1], [])
  }

  function Flying(url: string, seen: Option<nat>): State
  {
    State(Empty(), map[url := Flight(seen, None)], 0, map[], map[], [])
  }

  lemma FlyingIsReachable(url: string)
    ensures Reachable(Flying(url, None)) && Reachable(Flying(url, Some(0)))
  {
    assert Run(Init(0), [], Init(0));
    ReachableStep(Init(0), Call(url, false));
    assert Step(Init(0), Call(url, false)) == Flying(url, None);
    ReachableStep(Flying(url, None), Read(url));
    assert Step(Flying(url, None), Read(url)) == Flying(url, Some(0));
  }

  // Either the lookup has read the log before the log stored the signature, or not at all.
  lemma AwaitingIsReachable(url: string, seen: Option<nat>)
    requires seen == None || seen == Some(0)
    ensures Reachable(Awaiting(url, seen)) && Enabled(Awaiting(url, seen), Sign(url))
  {
    FlyingIsReachable(url);
    ReachableStep(Flying(url, seen), Append(url));
    assert Step(Flying(url, seen), Append(url)) == Awaiting(url, seen);
  }

  // A lookup that read the log first: after the signature it still lands, and its old result is
  // what the cache then answers with.
  lemma ReadThenSign(url: string, result: Answer)
    ensures var s := Awaiting(url, Some(0));
            && Reachable(s) && Enabled(s, Sign(url)) && StaleFlight(s, url)
            && var t := Step(s, Sign(url));
               Enabled(t, Land(url, result)) && t.cache.Valid()
               && IsFresh(Step(t, Land(url, result)), url) && StaleReply(Step(t, Land(url, result)), url)
  {
    AwaitingIsReachable(url, Some(0));
  }

  // A lookup that has not read the log yet: it is pending when the reply arrives, and all later
  // answers are fresh.
  lemma SignThenRead(url: string)
    ensures var s := Awaiting(url, None);
            && Reachable(s) && Enabled(s, Sign(url)) && url in s.pending
            && FreshFromNowOn(Step(s, Sign(url)), url)
  {
    AwaitingIsReachable(url, None);
    FreshAfterSigningIff(Awaiting(url, None), url);
  }

  // ---------- The code ----------

  // The fields from `logged` on are history: the worker's code does not look at them.
  class Worker {
    var verdictsCache: JsMap<string, Cached>
    var verdictsPending: map<string, Flight>
    var now: int
    var logged: map<string, nat>
    var unconfirmed: map<string, nat>
    var log: seq<Stored>

    ghost function View(): State
      reads this
    {
      State(verdictsCache, verdictsPending, now, logged, unconfirmed, log)
    }

    constructor (now: int)
      ensures View() == Init(now) && Inv(View())
    {
      verdictsCache := Empty();
      verdictsPending := map[];
      this.now := now;
      logged, unconfirmed := map[], map[];
      log := [];
    }

    method CacheAndReturn(url: string, result: Answer, seen: Option<nat>)
      requires verdictsCache.Valid()
      modifies this`verdictsCache, this`log
      ensures View() == Store(old(View()), url, result, seen)
    {
      if verdictsCache.Size() >= MAX_SIZE {
        verdictsCache := verdictsCache.Delete(verdictsCache.keys[0]);
      }
      verdictsCache := verdictsCache.Set(url, Cached(result, now, seen));
      log := log + [Stored(url, result, now)];
    }

    // The part of a verdict request that runs before its first suspension.
    method HandleGetVerdicts(url: string, rejected: bool) returns (reply: Reply)
      requires Inv(View())
      modifies this
      ensures View() == Step(old(View()), Call(url, rejected)) && Inv(View())
      ensures reply == ReplyTo(old(View()), url)
    {
      CallKeepsInv(View(), url, rejected);
      if verdictsCache.Has(url) {
        var cached := verdictsCache.vals[url];
        var ttl := if |cached.result| > 0 then TTL_OK else TTL_NULL;
        if now - cached.fetchedAt < ttl {
          return Hit(cached.result, cached.seen);
        }
      }
      verdictsCache := verdictsCache.Delete(url);
      if url in verdictsPending {
        return Joined(verdictsPending[url].seen);
      }
      LaunchFlight(url, rejected);
      reply := Launched;
    }

    method LaunchFlight(url: string, rejected: bool)
      requires verdictsCache.Valid()
      modifies this`verdictsCache, this`verdictsPending, this`log
      ensures View() == Launch(old(View()), url, rejected)
    {
      var flight := Flight(None, None);
      if rejected {
        CacheAndReturn(url, map[], None);
        flight := Flight(None, Some(map[]));
      }
      verdictsPending := verdictsPending[url := flight];
    }

    // The lookup in flight gets the image's entries from the log.
    method ReadLog(url: string)
      requires Inv(View()) && Enabled(View(), Read(url))
      modifies this
      ensures View() == Step(old(View()), Read(url)) && Inv(View())
    {
      StepKeepsInv(View(), Read(url));
      verdictsPending := verdictsPending[url := Flight(Some(CountIn(logged, url)), None)];
    }

    // A lookup ends.
    method LandFlight(url: string, result: Answer)
      requires Inv(View()) && Enabled(View(), Land(url, result))
      modifies this
      ensures View() == Step(old(View()), Land(url, result)) && Inv(View())
    {
      LandKeepsInv(View(), url, result);
      var flight := verdictsPending[url];
      CacheAndReturn(url, result, flight.seen);
      verdictsPending := verdictsPending[url := flight.(result := Some(result))];
    }

    // The first caller resumes.
    method SettleFlight(url: string)
      requires Inv(View()) && Enabled(View(), Settle(url))
      modifies this
      ensures View() == Step(old(View()), Settle(url)) && Inv(View())
    {
      StepKeepsInv(View(), Settle(url));
      verdictsPending := verdictsPending - {url};
    }

    // The end of handleSign.
    method SignLogged(url: string)
      requires Inv(View()) && Enabled(View(), Sign(url))
      modifies this
      ensures View() == Step(old(View()), Sign(url)) && Inv(View())
    {
      StepKeepsInv(View(), Sign(url));
      unconfirmed := unconfirmed[url := CountIn(unconfirmed, url) - 1];
      verdictsCache := verdictsCache.Delete(url);
    }
  }
}
