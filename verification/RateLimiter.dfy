// The per-address token bucket: one visitor record per address, refilled by whole intervals,
// and a cleanup loop that forgets addresses idle for longer than its period.
module RateLimiter {
  import opened Wrappers

  // Times and durations are nanoseconds of the monotonic clock.
  datatype Config = Config(rate: int, burst: int, interval: int) {
    // A zero interval makes Allow divide by zero.
    predicate Valid() { interval > 0 }
  }

  datatype Visitor = Visitor(tokens: int, lastCheck: int)

  type Visitors = map<string, Visitor>

  // Integer division as in Go: it truncates toward zero.
  function TruncDiv(a: int, b: int): int
    requires b > 0
  {
    if a >= 0 then a / b else -((-a) / b)
  }

  // The tokens after the refill and the cap, before one is taken.
  function Refill(cfg: Config, v: Visitor, since: int): int
    requires cfg.Valid()
  {
    Min(v.tokens + TruncDiv(since - v.lastCheck, cfg.interval) * cfg.rate, cfg.burst)
  }

  // What one call does to the record of its address. The clock is read twice: `since` measures
  // the elapsed time, `stamp` becomes the new lastCheck.
  function Decide(cfg: Config, slot: Option<Visitor>, since: int, stamp: int): (Visitor, bool)
    requires cfg.Valid()
  {
    match slot
    case None => (Visitor(cfg.burst - 1, stamp), true)
    case Some(v) =>
      var t := Refill(cfg, v, since);
      if t <= 0 then (Visitor(t, stamp), false) else (Visitor(t - 1, stamp), true)
  }

  function AllowVisitors(cfg: Config, vs: Visitors, ip: string, since: int, stamp: int): Visitors
    requires cfg.Valid()
  {
    vs[ip := Decide(cfg, Lookup(vs, ip), since, stamp).0]
  }

  function Allowed(cfg: Config, vs: Visitors, ip: string, since: int, stamp: int): bool
    requires cfg.Valid()
  {
    Decide(cfg, Lookup(vs, ip), since, stamp).1
  }

  predicate Idle(v: Visitor, every: int, reading: int) {
    reading - v.lastCheck > every
  }

  // A cleanup pass; the clock is read once for each visitor.
  function Swept(vs: Visitors, every: int, readings: map<string, int>): Visitors {
    map ip | ip in vs && !(ip in readings && Idle(vs[ip], every, readings[ip])) :: vs[ip]
  }

  class Limiter {
    var visitors: Visitors
    const cfg: Config

    constructor (rate: int, burst: int, interval: int)
      ensures visitors == map[] && cfg == Config(rate, burst, interval)
    {
      visitors := map[];
      cfg := Config(rate, burst, interval);
    }

    method Allow(ip: string, since: int, stamp: int) returns (ok: bool)
      requires cfg.Valid()
      modifies this`visitors
      ensures ok == Allowed(cfg, old(visitors), ip, since, stamp)
      ensures visitors == AllowVisitors(cfg, old(visitors), ip, since, stamp)
    {
      if ip !in visitors {
        visitors := visitors[ip := Visitor(cfg.burst - 1, stamp)];
        return true;
      }
      var v := visitors[ip];
      var elapsed := since - v.lastCheck;
      v := v.(tokens := v.tokens + TruncDiv(elapsed, cfg.interval) * cfg.rate);
      if v.tokens > cfg.burst {
        v := v.(tokens := cfg.burst);
      }
      v := v.(lastCheck := stamp);
      if v.tokens <= 0 {
        visitors := visitors[ip := v];
        return false;
      }
      v := v.(tokens := v.tokens - 1);
      visitors := visitors[ip := v];
      return true;
    }

    // One tick of the cleanup loop: every visitor is looked at once, in any order.
    method Cleanup(every: int, readings: map<string, int>)
      requires visitors.Keys <= readings.Keys
      modifies this`visitors
      ensures visitors == Swept(old(visitors), every, readings)
    {
      var todo := visitors.Keys;
      ghost var done: set<string> := {};
      while todo != {}
        invariant todo + done == old(visitors).Keys && todo !! done
        invariant forall ip :: ip in visitors <==>
                    ip in old(visitors) && !(ip in done && Idle(old(visitors)[ip], every, readings[ip]))
        invariant forall ip :: ip in visitors ==> visitors[ip] == old(visitors)[ip]
        decreases todo
      {
        var ip :| ip in todo;
        if Idle(visitors[ip], every, readings[ip]) {
          visitors := visitors - {ip};
        }
        todo := todo - {ip};
        done := done + {ip};
      }
    }
  }
}

// What the limiter does over whole traces of calls and cleanup passes.
module RateLimiterRuns {
  import opened Wrappers
  import opened RateLimiter

  // Between `from` and `till` a step may read the clock several times.
  datatype Step =
    | Call(ip: string, since: int, stamp: int)
    | Sweep(from: int, till: int, readings: map<string, int>)
  {
    function Start(): int { if Call? then since else from }
    function End(): int { if Call? then stamp else till }
    predicate WellTimed() {
      Start() <= End() &&
      (Sweep? ==> forall ip | ip in readings :: from <= readings[ip] <= till)
    }
  }

  // Steps run one after the other under the mutex, on a clock that never goes back.
  predicate Ordered(now: int, steps: seq<Step>)
    decreases |steps|
  {
    steps == [] ||
    (now <= steps[0].Start() && steps[0].WellTimed() && Ordered(steps[0].End(), steps[1..]))
  }

  function After(cfg: Config, every: int, vs: Visitors, step: Step): Visitors
    requires cfg.Valid()
  {
    match step
    case Call(ip, since, stamp) => AllowVisitors(cfg, vs, ip, since, stamp)
    case Sweep(_, _, readings) => Swept(vs, every, readings)
  }

  function AfterAll(cfg: Config, every: int, vs: Visitors, steps: seq<Step>): Visitors
    requires cfg.Valid()
    decreases |steps|
  {
    if steps == [] then vs else AfterAll(cfg, every, After(cfg, every, vs, steps[0]), steps[1..])
  }

  datatype Verdict = Verdict(ip: string, ok: bool)

  // The answers given to the calls of a trace, in order.
  function Verdicts(cfg: Config, every: int, vs: Visitors, steps: seq<Step>): seq<Verdict>
    requires cfg.Valid()
    decreases |steps|
  {
    if steps == [] then []
    else
      var rest := Verdicts(cfg, every, After(cfg, every, vs, steps[0]), steps[1..]);
      match steps[0]
      case Call(ip, since, stamp) => [Verdict(ip, Allowed(cfg, vs, ip, since, stamp))] + rest
      case Sweep(_, _, _) => rest
  }

  // The same trace on a limiter that never cleans up.
  function CallsOnly(steps: seq<Step>): seq<Step> {
    if steps == [] then []
    else if steps[0].Call? then [steps[0]] + CallsOnly(steps[1..])
    else CallsOnly(steps[1..])
  }

  function Admitted(verdicts: seq<Verdict>, ip: string): nat {
    if verdicts == [] then 0
    else (if verdicts[0] == Verdict(ip, true) then 1 else 0) + Admitted(verdicts[1..], ip)
  }

  // ------------------------------------------------------------------ arithmetic

  lemma MulMono(a: int, b: int, c: int)
    requires a <= b && 0 <= c
    ensures a * c <= b * c
  {
  }

  lemma DivMono(a: int, b: int, d: int)
    requires 0 <= a <= b && d > 0
    ensures 0 <= a / d <= b / d
  {
    if b / d < a / d {
      MulMono(b / d + 1, a / d, d);
    }
  }

  // Rounding each part down loses at least as much as rounding the whole down.
  lemma DivSplit(a: int, b: int, d: int)
    requires 0 <= a && 0 <= b && d > 0
    ensures 0 <= a / d && 0 <= b / d && a / d + b / d <= (a + b) / d
  {
    DivMono(0, a, d);
    DivMono(0, b, d);
    if (a + b) / d < a / d + b / d {
      MulMono((a + b) / d + 1, a / d + b / d, d);
    }
  }

  lemma ShorterEarnsLess(r: int, a: int, b: int, d: int)
    requires 0 <= r && 0 <= a <= b && d > 0
    ensures 0 <= r * (a / d) <= r * (b / d)
  {
    DivMono(a, b, d);
    MulMono(0, a / d, r);
    MulMono(a / d, b / d, r);
  }

  // What two separate stretches of time earn is at most what the whole earns.
  lemma RefillsAdd(r: int, a: int, b: int, c: int, d: int)
    requires 0 <= r && 0 <= a && 0 <= b && a + b <= c && d > 0
    ensures r * (a / d) + r * (b / d) <= r * (c / d)
  {
    DivSplit(a, b, d);
    DivMono(a + b, c, d);
    MulMono(a / d + b / d, c / d, r);
    assert r * (a / d) + r * (b / d) == (a / d + b / d) * r;
  }

  // ------------------------------------------------------------------ bound for every window

  // One call pays for its admission out of the level and the whole intervals since the last one.
  lemma CallPays(cfg: Config, v: Visitor, since: int, stamp: int)
    requires cfg.Valid() && v.lastCheck <= since
    ensures var (v', ok) := Decide(cfg, Some(v), since, stamp);
            (if ok then 1 else 0) + Max(v'.tokens, 0)
              <= Min(Max(v.tokens, 0) + Max(cfg.rate, 0) * ((since - v.lastCheck) / cfg.interval), Max(cfg.burst, 0))
  {
    var n := (since - v.lastCheck) / cfg.interval;
    DivMono(0, since - v.lastCheck, cfg.interval);
    MulMono(cfg.rate, Max(cfg.rate, 0), n);
  }

  // From a visitor checked at `last` to the end of a window at `till`.
  lemma {:induction false} VisitorBound(cfg: Config, every: int, vs: Visitors, steps: seq<Step>, ip: string, now: int, till: int)
    requires cfg.Valid() && ip in vs && vs[ip].lastCheck <= now <= till
    requires Ordered(now, steps) && forall s | s in steps :: s.Call? && s.End() <= till
    ensures Admitted(Verdicts(cfg, every, vs, steps), ip)
              <= Max(vs[ip].tokens, 0) + Max(cfg.rate, 0) * ((till - vs[ip].lastCheck) / cfg.interval)
    decreases |steps|
  {
    var v := vs[ip];
    var r := Max(cfg.rate, 0);
    if steps == [] {
      DivMono(0, till - v.lastCheck, cfg.interval);
      MulMono(0, (till - v.lastCheck) / cfg.interval, r);
    } else {
      var s := steps[0];
      assert s in steps && s.Call?;
      var vs' := After(cfg, every, vs, s);
      forall x | x in steps[1..] ensures x.Call? && x.End() <= till { assert x in steps; }
      VisitorBound(cfg, every, vs', steps[1..], ip, s.stamp, till);
      var verdicts := Verdicts(cfg, every, vs, steps);
      assert verdicts[1..] == Verdicts(cfg, every, vs', steps[1..]);
      if s.ip == ip {
        CallPays(cfg, v, s.since, s.stamp);
        RefillsAdd(r, s.since - v.lastCheck, till - s.stamp, till - v.lastCheck, cfg.interval);
      }
    }
  }

  // A window that starts in an arbitrary state of the table.
  lemma {:induction false} WindowFrom(cfg: Config, every: int, vs: Visitors, steps: seq<Step>, ip: string, from: int, till: int)
    requires cfg.Valid() && from <= till
    requires ip in vs ==> vs[ip].lastCheck <= from
    requires Ordered(from, steps) && forall s | s in steps :: s.Call? && s.End() <= till
    ensures Admitted(Verdicts(cfg, every, vs, steps), ip)
              <= Max(cfg.burst, 1) + Max(cfg.rate, 0) * ((till - from) / cfg.interval)
    decreases |steps|
  {
    var r := Max(cfg.rate, 0);
    ShorterEarnsLess(r, 0, till - from, cfg.interval);
    if steps != [] {
      var s := steps[0];
      assert s in steps && s.Call?;
      var vs' := After(cfg, every, vs, s);
      forall x | x in steps[1..] ensures x.Call? && x.End() <= till { assert x in steps; }
      var verdicts := Verdicts(cfg, every, vs, steps);
      assert verdicts[1..] == Verdicts(cfg, every, vs', steps[1..]);
      ShorterEarnsLess(r, till - s.stamp, till - from, cfg.interval);
      if s.ip == ip {
        if ip in vs {
          CallPays(cfg, vs[ip], s.since, s.stamp);
        }
        VisitorBound(cfg, every, vs', steps[1..], ip, s.stamp, till);
      } else {
        WindowFrom(cfg, every, vs', steps[1..], ip, s.stamp, till);
      }
    }
  }

  // ------------------------------------------------------------------ runs and their parts

  predicate Timely(vs: Visitors, now: int) {
    forall ip | ip in vs :: vs[ip].lastCheck <= now
  }

  lemma {:induction false} RunStaysTimely(cfg: Config, every: int, vs: Visitors, steps: seq<Step>, now: int, till: int)
    requires cfg.Valid() && Timely(vs, now) && now <= till && Ordered(now, steps)
    requires forall s | s in steps :: s.End() <= till
    ensures Timely(AfterAll(cfg, every, vs, steps), till)
    decreases |steps|
  {
    if steps != [] {
      var s := steps[0];
      assert s in steps;
      forall x | x in steps[1..] ensures x.End() <= till { assert x in steps; }
      RunStaysTimely(cfg, every, After(cfg, every, vs, s), steps[1..], s.End(), till);
    }
  }

  lemma {:induction false} VerdictsConcat(cfg: Config, every: int, vs: Visitors, a: seq<Step>, b: seq<Step>)
    requires cfg.Valid()
    ensures Verdicts(cfg, every, vs, a + b)
              == Verdicts(cfg, every, vs, a) + Verdicts(cfg, every, AfterAll(cfg, every, vs, a), b)
    ensures AfterAll(cfg, every, vs, a + b) == AfterAll(cfg, every, AfterAll(cfg, every, vs, a), b)
    decreases |a|
  {
    if a == [] {
      assert a + b == b;
    } else {
      assert (a + b)[1..] == a[1..] + b;
      VerdictsConcat(cfg, every, After(cfg, every, vs, a[0]), a[1..], b);
    }
  }

  lemma {:induction false} OrderedConcat(now: int, a: seq<Step>, mid: int, b: seq<Step>)
    requires Ordered(now, a) && now <= mid && Ordered(mid, b)
    requires forall s | s in a :: s.End() <= mid
    ensures Ordered(now, a + b)
    decreases |a|
  {
    if a == [] {
      assert a + b == b;
      if b != [] { assert now <= b[0].Start(); }
    } else {
      assert (a + b)[1..] == a[1..] + b;
      assert a[0] in a;
      forall x | x in a[1..] ensures x.End() <= mid { assert x in a; }
      OrderedConcat(a[0].End(), a[1..], mid, b);
    }
  }

  // Main result: in any window of any run without cleanup, one address is admitted at most
  // burst times plus rate times the whole intervals of the window.
  lemma WindowBound(cfg: Config, every: int, before: seq<Step>, window: seq<Step>, ip: string, start: int, from: int, till: int)
    requires cfg.Valid() && start <= from <= till
    requires Ordered(start, before) && forall s | s in before :: s.End() <= from
    requires Ordered(from, window) && forall s | s in window :: s.Call? && s.End() <= till
    ensures Admitted(Verdicts(cfg, every, AfterAll(cfg, every, map[], before), window), ip)
              <= Max(cfg.burst, 1) + Max(cfg.rate, 0) * ((till - from) / cfg.interval)
  {
    RunStaysTimely(cfg, every, map[], before, start, from);
    WindowFrom(cfg, every, AfterAll(cfg, every, map[], before), window, ip, from, till);
  }

  // With a burst of zero the first call is admitted all the same, so "at most burst" needs burst >= 1.
  lemma ZeroBurstStillAdmitsOnce(rate: int, interval: int, every: int)
    requires interval > 0
    ensures Admitted(Verdicts(Config(rate, 0, interval), every, map[], [Call("a", 0, 0)]), "a") == 1
  {
    var steps := [Call("a", 0, 0)];
    var cfg := Config(rate, 0, interval);
    assert steps[1..] == [];
    assert Verdicts(cfg, every, map[], steps) == [Verdict("a", true)];
    assert [Verdict("a", true)][1..] == [];
  }

  // ------------------------------------------------------------------ cleanup is invisible

  // An evicted visitor corresponds to one that has been idle for more than the period.
  ghost predicate Similar(every: int, swept: Visitors, kept: Visitors, now: int) {
    && swept.Keys <= kept.Keys
    && Timely(kept, now)
    && (forall ip | ip in kept :: kept[ip].tokens >= 0)
    && (forall ip | ip in swept :: swept[ip] == kept[ip])
    && (forall ip | ip in kept && ip !in swept :: Idle(kept[ip], every, now))
  }

  // The exact condition under which cleanup cannot be noticed: a visitor idle for the shortest
  // time that gets it evicted has been refilled to the brim.
  predicate RefillsWhileIdle(cfg: Config, every: int)
    requires cfg.Valid() && every > 0
  {
    cfg.burst >= 1 && ((every + 1) / cfg.interval) * cfg.rate >= cfg.burst
  }

  lemma IdleRefills(cfg: Config, every: int, v: Visitor, since: int)
    requires cfg.Valid() && every > 0 && RefillsWhileIdle(cfg, every)
    requires v.tokens >= 0 && Idle(v, every, since)
    ensures Refill(cfg, v, since) == cfg.burst
  {
    var elapsed := since - v.lastCheck;
    DivMono(every + 1, elapsed, cfg.interval);
    var least := (every + 1) / cfg.interval;
    DivMono(0, every + 1, cfg.interval);
    if cfg.rate < 0 {
      MulMono(cfg.rate, 0, least);
    }
    MulMono(least, elapsed / cfg.interval, cfg.rate);
  }

  lemma StepKeepsSimilar(cfg: Config, every: int, swept: Visitors, kept: Visitors, now: int, step: Step)
    requires cfg.Valid() && every > 0 && RefillsWhileIdle(cfg, every)
    requires Similar(every, swept, kept, now)
    requires now <= step.Start() && step.WellTimed()
    ensures step.Call? ==>
              Allowed(cfg, swept, step.ip, step.since, step.stamp) == Allowed(cfg, kept, step.ip, step.since, step.stamp)
    ensures Similar(every, After(cfg, every, swept, step),
                    if step.Call? then After(cfg, every, kept, step) else kept, step.End())
  {
    if step.Call? && step.ip in kept {
      var v := kept[step.ip];
      if step.ip !in swept {
        IdleRefills(cfg, every, v, step.since);
      } else {
        DivMono(0, step.since - v.lastCheck, cfg.interval);
        if cfg.rate < 0 {
          MulMono(cfg.rate, 0, (every + 1) / cfg.interval);
        }
        MulMono(0, (step.since - v.lastCheck) / cfg.interval, cfg.rate);
      }
    }
  }

  lemma {:induction false} SimilarRuns(cfg: Config, every: int, swept: Visitors, kept: Visitors, now: int, steps: seq<Step>)
    requires cfg.Valid() && every > 0 && RefillsWhileIdle(cfg, every)
    requires Similar(every, swept, kept, now) && Ordered(now, steps)
    ensures Verdicts(cfg, every, swept, steps) == Verdicts(cfg, every, kept, CallsOnly(steps))
    decreases |steps|
  {
    if steps != [] {
      var s := steps[0];
      StepKeepsSimilar(cfg, every, swept, kept, now, s);
      var kept' := if s.Call? then After(cfg, every, kept, s) else kept;
      SimilarRuns(cfg, every, After(cfg, every, swept, s), kept', s.End(), steps[1..]);
      if s.Call? {
        var rest := CallsOnly(steps[1..]);
        assert ([s] + rest)[1..] == rest;
      }
    }
  }

  // Cleanup is invisible when every run of the limiter gives the answers it would have given
  // without a single cleanup pass.
  ghost predicate CleanupInvisible(cfg: Config, every: int)
    requires cfg.Valid()
  {
    forall start: int, steps: seq<Step> :: Ordered(start, steps) ==>
      Verdicts(cfg, every, map[], steps) == Verdicts(cfg, every, map[], CallsOnly(steps))
  }

  // `n` calls of one address at the same instant.
  function Flood(ip: string, at: int, n: nat): seq<Step> {
    if n == 0 then [] else [Call(ip, at, at)] + Flood(ip, at, n - 1)
  }

  lemma {:induction false} FloodIsCalls(ip: string, at: int, n: nat)
    ensures Ordered(at, Flood(ip, at, n)) && CallsOnly(Flood(ip, at, n)) == Flood(ip, at, n)
    ensures forall s | s in Flood(ip, at, n) :: s.End() <= at
  {
    if n > 0 {
      var f := Flood(ip, at, n);
      assert f[1..] == Flood(ip, at, n - 1);
      FloodIsCalls(ip, at, n - 1);
    }
  }

  // The tokens a call of this address finds at this instant.
  function Found(cfg: Config, vs: Visitors, ip: string, at: int): int
    requires cfg.Valid()
  {
    if ip in vs then Refill(cfg, vs[ip], at) else Max(cfg.burst, 1)
  }

  lemma CallTakesOne(cfg: Config, vs: Visitors, ip: string, at: int)
    requires cfg.Valid()
    ensures Allowed(cfg, vs, ip, at, at) <==> 0 < Found(cfg, vs, ip, at)
    ensures Max(Found(cfg, AllowVisitors(cfg, vs, ip, at, at), ip, at), 0) == Max(Found(cfg, vs, ip, at) - 1, 0)
  {
    assert 0 / cfg.interval == 0;
  }

  // A flood is admitted exactly as far as the tokens found on arrival reach.
  lemma {:induction false} FloodVerdicts(cfg: Config, every: int, vs: Visitors, ip: string, at: int, n: nat)
    requires cfg.Valid()
    ensures |Verdicts(cfg, every, vs, Flood(ip, at, n))| == n
    ensures forall j | 0 <= j < n :: Verdicts(cfg, every, vs, Flood(ip, at, n))[j] == Verdict(ip, j < Found(cfg, vs, ip, at))
    decreases n
  {
    if n > 0 {
      var f, vs' := Flood(ip, at, n), AllowVisitors(cfg, vs, ip, at, at);
      assert f[1..] == Flood(ip, at, n - 1);
      CallTakesOne(cfg, vs, ip, at);
      FloodVerdicts(cfg, every, vs', ip, at, n - 1);
      var rest := Verdicts(cfg, every, vs', f[1..]);
      var out := [Verdict(ip, 0 < Found(cfg, vs, ip, at))] + rest;
      assert Verdicts(cfg, every, vs, f) == out;
      forall j | 0 <= j < n ensures out[j] == Verdict(ip, j < Found(cfg, vs, ip, at)) {
        if j > 0 { assert out[j] == rest[j - 1]; }
      }
    }
  }

  lemma {:induction false} DrainKnown(cfg: Config, every: int, vs: Visitors, ip: string, at: int, n: nat)
    requires cfg.Valid() && ip in vs && vs[ip].lastCheck == at && n <= Max(vs[ip].tokens, 0)
    requires vs[ip].tokens <= cfg.burst
    ensures AfterAll(cfg, every, vs, Flood(ip, at, n)) == vs[ip := Visitor(vs[ip].tokens - n, at)]
    decreases n
  {
    if n == 0 {
      assert vs[ip := Visitor(vs[ip].tokens, at)] == vs;
    } else {
      var f := Flood(ip, at, n);
      assert f[1..] == Flood(ip, at, n - 1);
      assert 0 / cfg.interval == 0;
      DrainKnown(cfg, every, After(cfg, every, vs, f[0]), ip, at, n - 1);
    }
  }

  // A new address that uses up its first bucket.
  lemma DrainNew(cfg: Config, every: int, ip: string, at: int)
    requires cfg.Valid()
    ensures AfterAll(cfg, every, map[], Flood(ip, at, Max(cfg.burst, 1))) == map[ip := Visitor(Min(cfg.burst - 1, 0), at)]
  {
    var n := Max(cfg.burst, 1);
    var f := Flood(ip, at, n);
    assert f[1..] == Flood(ip, at, n - 1);
    DrainKnown(cfg, every, After(cfg, every, map[], f[0]), ip, at, n - 1);
  }

  lemma {:induction false} CallsOnlyConcat(a: seq<Step>, b: seq<Step>)
    ensures CallsOnly(a + b) == CallsOnly(a) + CallsOnly(b)
  {
    if a == [] {
      assert a + b == b;
    } else {
      assert (a + b)[1..] == a[1..] + b;
      CallsOnlyConcat(a[1..], b);
    }
  }

  // When the condition fails, this run shows the difference: drain the bucket, let one cleanup
  // pass go by at the first instant it may evict, and flood again.
  function Sweeping(at: int): seq<Step> {
    [Sweep(at, at, map["a" := at])]
  }

  function Telltale(cfg: Config, every: int): seq<Step> {
    var n := Max(cfg.burst, 1);
    Flood("a", 0, n) + (Sweeping(every + 1) + Flood("a", every + 1, n))
  }

  lemma TelltaleIsOrdered(cfg: Config, every: int)
    requires every > 0
    ensures Ordered(0, Telltale(cfg, every))
    ensures var n := Max(cfg.burst, 1);
            CallsOnly(Telltale(cfg, every)) == Flood("a", 0, n) + Flood("a", every + 1, n)
  {
    var n := Max(cfg.burst, 1);
    var at := every + 1;
    var drain, sweep, flood := Flood("a", 0, n), Sweeping(at), Flood("a", at, n);
    FloodIsCalls("a", 0, n);
    FloodIsCalls("a", at, n);
    assert (sweep + flood)[1..] == flood;
    assert sweep[0].WellTimed();
    OrderedConcat(0, drain, 0, sweep + flood);
    CallsOnlyConcat(drain, sweep + flood);
  }

  lemma CleanupShows(cfg: Config, every: int)
    requires cfg.Valid() && every > 0 && !RefillsWhileIdle(cfg, every)
    ensures Ordered(0, Telltale(cfg, every))
    ensures Verdicts(cfg, every, map[], Telltale(cfg, every)) != Verdicts(cfg, every, map[], CallsOnly(Telltale(cfg, every)))
  {
    var n := Max(cfg.burst, 1);
    var at := every + 1;
    var drain, sweep, flood := Flood("a", 0, n), Sweeping(at), Flood("a", at, n);
    TelltaleIsOrdered(cfg, every);
    var drained := Visitor(Min(cfg.burst - 1, 0), 0);
    var vs: Visitors := map["a" := drained];
    FloodVerdicts(cfg, every, map[], "a", 0, n);
    DrainNew(cfg, every, "a", 0);
    VerdictsConcat(cfg, every, map[], drain, sweep + flood);
    VerdictsConcat(cfg, every, map[], drain, flood);
    SweptFlood(cfg, every, vs, at, n);
    FloodVerdicts(cfg, every, map[], "a", at, n);
    FloodVerdicts(cfg, every, vs, "a", at, n);
    assert Found(cfg, vs, "a", at) < n;
    var given, expected := Verdicts(cfg, every, map[], drain + (sweep + flood)), Verdicts(cfg, every, map[], drain + flood);
    assert given[n + n - 1] == Verdict("a", true);
    assert expected[n + n - 1] == Verdict("a", false);
  }

  lemma SweptFlood(cfg: Config, every: int, vs: Visitors, at: int, n: nat)
    requires cfg.Valid() && vs.Keys == {"a"} && Idle(vs["a"], every, at)
    ensures Verdicts(cfg, every, vs, Sweeping(at) + Flood("a", at, n)) == Verdicts(cfg, every, map[], Flood("a", at, n))
  {
    var steps := Sweeping(at) + Flood("a", at, n);
    assert steps[1..] == Flood("a", at, n);
    assert After(cfg, every, vs, steps[0]) == map[];
  }

  // Main result: cleanup is invisible exactly when an idle visitor is full again by the time it
  // may be evicted.
  lemma CleanupInvisibleIff(cfg: Config, every: int)
    requires cfg.Valid() && every > 0
    ensures CleanupInvisible(cfg, every) <==> RefillsWhileIdle(cfg, every)
  {
    if RefillsWhileIdle(cfg, every) {
      forall start: int, steps: seq<Step> | Ordered(start, steps)
        ensures Verdicts(cfg, every, map[], steps) == Verdicts(cfg, every, map[], CallsOnly(steps))
      {
        SimilarRuns(cfg, every, map[], map[], start, steps);
      }
    } else {
      CleanupShows(cfg, every);
    }
  }

  const SECOND := 1_000_000_000
  const CLEANUP_PERIOD := 300 * SECOND

  // The services run with 10 tokens a second, bursts of 20 and a cleanup every five minutes.
  lemma ServiceConfigurationHidesCleanup()
    ensures CleanupInvisible(Config(10, 20, SECOND), CLEANUP_PERIOD)
  {
    CleanupInvisibleIff(Config(10, 20, SECOND), CLEANUP_PERIOD);
  }

  // With such a configuration the window bound also holds for the limiter that cleans up.
  lemma WindowBoundWithCleanup(cfg: Config, every: int, before: seq<Step>, window: seq<Step>, ip: string, start: int, from: int, till: int)
    requires cfg.Valid() && every > 0 && RefillsWhileIdle(cfg, every) && start <= from <= till
    requires Ordered(start, before) && forall s | s in before :: s.End() <= from
    requires Ordered(from, window) && forall s | s in window :: s.End() <= till
    ensures Admitted(Verdicts(cfg, every, AfterAll(cfg, every, map[], before), window), ip)
              <= cfg.burst + Max(cfg.rate, 0) * ((till - from) / cfg.interval)
  {
    var kept := SimilarAfter(cfg, every, map[], map[], start, before, from);
    var swept := AfterAll(cfg, every, map[], before);
    SimilarRuns(cfg, every, swept, kept, from, window);
    CallsOnlyOrdered(from, window, till);
    WindowFrom(cfg, every, kept, CallsOnly(window), ip, from, till);
  }

  lemma {:induction false} SimilarAfter(cfg: Config, every: int, swept: Visitors, kept: Visitors, now: int, steps: seq<Step>, till: int)
    returns (kept': Visitors)
    requires cfg.Valid() && every > 0 && RefillsWhileIdle(cfg, every)
    requires Similar(every, swept, kept, now) && Ordered(now, steps) && now <= till
    requires forall s | s in steps :: s.End() <= till
    ensures Similar(every, AfterAll(cfg, every, swept, steps), kept', till)
    decreases |steps|
  {
    if steps == [] {
      kept' := kept;
    } else {
      var s := steps[0];
      assert s in steps;
      forall x | x in steps[1..] ensures x.End() <= till { assert x in steps; }
      StepKeepsSimilar(cfg, every, swept, kept, now, s);
      kept' := SimilarAfter(cfg, every, After(cfg, every, swept, s),
                            if s.Call? then After(cfg, every, kept, s) else kept, s.End(), steps[1..], till);
    }
  }

  lemma {:induction false} CallsOnlyOrdered(now: int, steps: seq<Step>, till: int)
    requires Ordered(now, steps) && forall s | s in steps :: s.End() <= till
    ensures Ordered(now, CallsOnly(steps))
    ensures forall s | s in CallsOnly(steps) :: s.Call? && s.End() <= till
    decreases |steps|
  {
    if steps != [] {
      var s := steps[0];
      assert s in steps;
      forall x | x in steps[1..] ensures x.End() <= till { assert x in steps; }
      CallsOnlyOrdered(s.End(), steps[1..], till);
      var rest := CallsOnly(steps[1..]);
      assert ([s] + rest)[1..] == rest;
      if rest != [] && s.Sweep? {
        assert now <= rest[0].Start();
      }
    }
  }

  // ------------------------------------------------------------------ the ideal bucket

  // The textbook bucket keeps the part of the interval that has not yet earned a token: its
  // anchor advances by whole intervals only.
  datatype Bucket = Bucket(tokens: int, anchor: int)

  function IdealDecide(cfg: Config, slot: Option<Bucket>, at: int): (Bucket, bool)
    requires cfg.Valid()
  {
    match slot
    case None => (Bucket(cfg.burst - 1, at), true)
    case Some(b) =>
      var n := TruncDiv(at - b.anchor, cfg.interval);
      var t := Min(b.tokens + n * cfg.rate, cfg.burst);
      var anchor := b.anchor + n * cfg.interval;
      if t <= 0 then (Bucket(t, anchor), false) else (Bucket(t - 1, anchor), true)
  }

  function IdealVerdicts(cfg: Config, bs: map<string, Bucket>, steps: seq<Step>): seq<Verdict>
    requires cfg.Valid() && forall s | s in steps :: s.Call?
    decreases |steps|
  {
    if steps == [] then []
    else
      assert steps[0] in steps;
      var c := steps[0];
      var (b, ok) := IdealDecide(cfg, Lookup(bs, c.ip), c.since);
      [Verdict(c.ip, ok)] + IdealVerdicts(cfg, bs[c.ip := b], steps[1..])
  }

  // The ideal bucket is never behind, neither in tokens nor in credit for elapsed time.
  predicate Dominates(bs: map<string, Bucket>, vs: Visitors, now: int) {
    bs.Keys == vs.Keys && Timely(vs, now) &&
    forall ip | ip in vs :: bs[ip].tokens >= vs[ip].tokens && bs[ip].anchor <= vs[ip].lastCheck
  }

  lemma CallKeepsDominating(cfg: Config, b: Bucket, v: Visitor, since: int, stamp: int)
    requires cfg.Valid() && cfg.rate >= 0 && b.tokens >= v.tokens && b.anchor <= v.lastCheck <= since <= stamp
    ensures var (b', admitted) := IdealDecide(cfg, Some(b), since);
            var (v', ok) := Decide(cfg, Some(v), since, stamp);
            (ok ==> admitted) && b'.tokens >= v'.tokens && b'.anchor <= v'.lastCheck
  {
    var n, m := (since - b.anchor) / cfg.interval, (since - v.lastCheck) / cfg.interval;
    DivMono(since - v.lastCheck, since - b.anchor, cfg.interval);
    MulMono(m, n, cfg.rate);
    assert b.anchor + n * cfg.interval <= since;
  }

  // Main result: on every trace, a request the limiter admits is also admitted by the ideal bucket.
  lemma {:induction false} RefinesIdealBucket(cfg: Config, every: int, bs: map<string, Bucket>, vs: Visitors, now: int, steps: seq<Step>)
    requires cfg.Valid() && cfg.rate >= 0 && Dominates(bs, vs, now) && Ordered(now, steps)
    requires forall s | s in steps :: s.Call?
    ensures var given, ideal := Verdicts(cfg, every, vs, steps), IdealVerdicts(cfg, bs, steps);
            |given| == |ideal| == |steps| &&
            forall i | 0 <= i < |given| :: given[i].ip == ideal[i].ip && (given[i].ok ==> ideal[i].ok)
    decreases |steps|
  {
    if steps != [] {
      var c := steps[0];
      assert c in steps;
      forall x | x in steps[1..] ensures x.Call? { assert x in steps; }
      if c.ip in vs {
        CallKeepsDominating(cfg, bs[c.ip], vs[c.ip], c.since, c.stamp);
      }
      var bs' := bs[c.ip := IdealDecide(cfg, Lookup(bs, c.ip), c.since).0];
      RefinesIdealBucket(cfg, every, bs', After(cfg, every, vs, c), c.stamp, steps[1..]);
    }
  }

  // The refinement is strict in a way that matters: a drained visitor that retries more often than
  // once an interval never gets a token, because each refused call restarts its interval.
  predicate RetriesFasterThan(interval: int, last: int, ip: string, steps: seq<Step>)
    decreases steps
  {
    steps == [] ||
    (var s := steps[0];
     s.Call? && s.ip == ip && s.since - last < interval && RetriesFasterThan(interval, s.stamp, ip, steps[1..]))
  }

  lemma {:induction false} FastRetriesStarve(cfg: Config, every: int, vs: Visitors, ip: string, now: int, steps: seq<Step>)
    requires cfg.Valid() && ip in vs && vs[ip].tokens <= 0 && vs[ip].lastCheck <= now
    requires Ordered(now, steps) && RetriesFasterThan(cfg.interval, vs[ip].lastCheck, ip, steps)
    ensures Admitted(Verdicts(cfg, every, vs, steps), ip) == 0
    decreases |steps|
  {
    if steps != [] {
      var s := steps[0];
      assert (s.since - vs[ip].lastCheck) / cfg.interval == 0;
      var vs' := After(cfg, every, vs, s);
      FastRetriesStarve(cfg, every, vs', ip, s.stamp, steps[1..]);
      assert Verdicts(cfg, every, vs, steps)[1..] == Verdicts(cfg, every, vs', steps[1..]);
    }
  }

  // A drained visitor is admitted again exactly when a whole interval has passed since its last
  // call, refused or not.
  lemma DrainedRecoversIff(cfg: Config, vs: Visitors, ip: string, since: int, stamp: int)
    requires cfg.Valid() && cfg.rate >= 1 && cfg.burst >= 1
    requires ip in vs && vs[ip].tokens == 0 && vs[ip].lastCheck <= since
    ensures Allowed(cfg, vs, ip, since, stamp) <==> since - vs[ip].lastCheck >= cfg.interval
  {
    var n := (since - vs[ip].lastCheck) / cfg.interval;
    if since - vs[ip].lastCheck >= cfg.interval {
      DivMono(cfg.interval, since - vs[ip].lastCheck, cfg.interval);
      MulMono(1, n, cfg.rate);
    }
  }
}
