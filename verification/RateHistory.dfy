// Which calls are admitted, from the history of an address alone.
module RateLimiterHistory {
  import opened Wrappers
  import opened RateLimiter
  import opened RateLimiterRuns

  function OwnCalls(steps: seq<Step>, ip: string): seq<Step> {
    if steps == [] then []
    else (if steps[0].Call? && steps[0].ip == ip then [steps[0]] else []) + OwnCalls(steps[1..], ip)
  }

  function OwnVerdicts(verdicts: seq<Verdict>, ip: string): seq<Verdict> {
    if verdicts == [] then []
    else (if verdicts[0].ip == ip then [verdicts[0]] else []) + OwnVerdicts(verdicts[1..], ip)
  }

  // The answers to one address are those it would get alone.
  lemma {:induction false} OwnCallsDecide(cfg: Config, every: int, vs: Visitors, own: Visitors, steps: seq<Step>, ip: string)
    requires cfg.Valid() && Lookup(vs, ip) == Lookup(own, ip) && forall s | s in steps :: s.Call?
    ensures OwnVerdicts(Verdicts(cfg, every, vs, steps), ip) == Verdicts(cfg, every, own, OwnCalls(steps, ip))
    decreases |steps|
  {
    if steps != [] {
      var s := steps[0];
      assert s in steps;
      forall x | x in steps[1..] ensures x.Call? { assert x in steps; }
      var own' := if s.ip == ip then After(cfg, every, own, s) else own;
      OwnCallsDecide(cfg, every, After(cfg, every, vs, s), own', steps[1..], ip);
      var rest := Verdicts(cfg, every, After(cfg, every, vs, s), steps[1..]);
      assert ([Verdict(s.ip, Allowed(cfg, vs, s.ip, s.since, s.stamp))] + rest)[1..] == rest;
      if s.ip == ip {
        assert ([s] + OwnCalls(steps[1..], ip))[1..] == OwnCalls(steps[1..], ip);
      } else {
        assert OwnCalls(steps, ip) == OwnCalls(steps[1..], ip);
      }
    }
  }

  predicate AllFrom(calls: seq<Step>, ip: string) {
    forall c | c in calls :: c.Call? && c.ip == ip
  }

  // The time between the end of call k - 1 and the start of call k.
  function Gap(calls: seq<Step>, k: int): int
    requires 0 < k < |calls|
  {
    calls[k].Start() - calls[k - 1].End()
  }

  predicate Successive(calls: seq<Step>) {
    forall k | 0 < k < |calls| :: Gap(calls, k) >= 0
  }

  // What the whole intervals between successive calls earn, from call i to call k.
  function Earned(cfg: Config, calls: seq<Step>, i: int, k: int): int
    requires cfg.Valid() && 0 <= i <= k < |calls|
    decreases k
  {
    if i == k then 0 else Earned(cfg, calls, i, k - 1) + cfg.rate * (Gap(calls, k) / cfg.interval)
  }

  lemma {:induction false} EarnedPrefix(cfg: Config, calls: seq<Step>, i: int, k: int, n: int)
    requires cfg.Valid() && 0 <= i <= k < n <= |calls|
    ensures Earned(cfg, calls[..n], i, k) == Earned(cfg, calls, i, k)
    decreases k
  {
    if i < k {
      EarnedPrefix(cfg, calls, i, k - 1, n);
      assert Gap(calls[..n], k) == Gap(calls, k);
    }
  }

  lemma {:induction false} AdmittedAppend(verdicts: seq<Verdict>, v: Verdict, ip: string)
    ensures Admitted(verdicts + [v], ip) == Admitted(verdicts, ip) + if v == Verdict(ip, true) then 1 else 0
  {
    if verdicts == [] {
      assert [v][1..] == [] && verdicts + [v] == [v];
    } else {
      assert (verdicts + [v])[1..] == verdicts[1..] + [v];
      AdmittedAppend(verdicts[1..], v, ip);
    }
  }

  // The burst and what was earned since call i, less what was admitted from call i on before call k.
  function Room(cfg: Config, calls: seq<Step>, verdicts: seq<Verdict>, ip: string, i: int, k: int): int
    requires cfg.Valid() && 0 <= i <= k < |calls| && k <= |verdicts|
  {
    cfg.burst + Earned(cfg, calls, i, k) - Admitted(verdicts[i..k], ip)
  }

  function Rooms(cfg: Config, calls: seq<Step>, verdicts: seq<Verdict>, ip: string, k: int): seq<int>
    requires cfg.Valid() && 0 <= k < |calls| && k <= |verdicts|
  {
    seq(k + 1, i requires 0 <= i < k + 1 => Room(cfg, calls, verdicts, ip, i, k))
  }

  predicate IsLeast(x: int, all: seq<int>) {
    x in all && forall i | 0 <= i < |all| :: x <= all[i]
  }

  // `before` and `after`: the rooms at one call and at the next, with `took` admitted by the first
  // and `gain` earned in between. A record that held the least room and is refilled up to the
  // burst holds the least room again.
  lemma LeastMoves(before: seq<int>, after: seq<int>, tokens: int, took: int, gain: int, burst: int)
    requires IsLeast(tokens, before) && |after| == |before| + 1 && after[|before|] == burst
    requires forall i | 0 <= i < |before| :: after[i] == before[i] - took + gain
    ensures IsLeast(Min(tokens - took + gain, burst), after)
  {
    var i :| 0 <= i < |before| && before[i] == tokens;
    var found := Min(tokens - took + gain, burst);
    assert found == after[i] || found == after[|before|];
  }

  lemma RoomMoves(cfg: Config, calls: seq<Step>, verdicts: seq<Verdict>, ip: string, i: int, k: int)
    requires cfg.Valid() && 0 <= i <= k < |calls| - 1 && k < |verdicts|
    ensures Room(cfg, calls, verdicts, ip, i, k + 1)
              == Room(cfg, calls, verdicts, ip, i, k) - (if verdicts[k] == Verdict(ip, true) then 1 else 0)
                 + cfg.rate * (Gap(calls, k + 1) / cfg.interval)
  {
    assert verdicts[i..k + 1] == verdicts[i..k] + [verdicts[k]];
    AdmittedAppend(verdicts[i..k], verdicts[k], ip);
  }

  // Where the record stands after call k: it was found with the least room, and paid if it could.
  ghost predicate Stands(cfg: Config, every: int, calls: seq<Step>, ip: string, k: int)
    requires cfg.Valid() && 0 <= k < |calls|
  {
    var verdicts, vs := Verdicts(cfg, every, map[], calls), AfterAll(cfg, every, map[], calls[..k + 1]);
    && |verdicts| == |calls|
    && vs.Keys == {ip} && vs[ip].lastCheck == calls[k].End()
    && exists found :: IsLeast(found, Rooms(cfg, calls, verdicts, ip, k)) && found >= 0
         && verdicts[k] == Verdict(ip, found > 0) && vs[ip].tokens == if found > 0 then found - 1 else found
  }

  lemma {:induction false} CallAt(cfg: Config, every: int, calls: seq<Step>, ip: string, k: int)
    requires cfg.Valid() && AllFrom(calls, ip) && 0 <= k < |calls|
    ensures var vs := AfterAll(cfg, every, map[], calls[..k]);
            var c := calls[k];
            && c.Call? && c.ip == ip && |Verdicts(cfg, every, map[], calls)| == |calls|
            && AfterAll(cfg, every, map[], calls[..k + 1]) == AllowVisitors(cfg, vs, ip, c.since, c.stamp)
            && Verdicts(cfg, every, map[], calls)[k] == Verdict(ip, Allowed(cfg, vs, ip, c.since, c.stamp))
  {
    var before, c, rest := calls[..k], calls[k], calls[k + 1..];
    assert c in calls;
    assert calls == before + ([c] + rest) && calls[..k + 1] == before + [c];
    VerdictsConcat(cfg, every, map[], before, [c] + rest);
    VerdictsConcat(cfg, every, map[], before, [c]);
    assert ([c] + rest)[1..] == rest && [c][1..] == [];
    forall x | x in before ensures x.Call? { assert x in calls; }
    forall x | x in rest ensures x.Call? { assert x in calls; }
    VerdictForEach(cfg, every, map[], before);
    VerdictForEach(cfg, every, AfterAll(cfg, every, map[], calls[..k + 1]), rest);
  }

  lemma {:induction false} VerdictForEach(cfg: Config, every: int, vs: Visitors, calls: seq<Step>)
    requires cfg.Valid() && forall x | x in calls :: x.Call?
    ensures |Verdicts(cfg, every, vs, calls)| == |calls|
    decreases |calls|
  {
    if calls != [] {
      assert calls[0] in calls;
      forall x | x in calls[1..] ensures x.Call? { assert x in calls; }
      VerdictForEach(cfg, every, After(cfg, every, vs, calls[0]), calls[1..]);
    }
  }

  lemma GainIsPositive(cfg: Config, gap: int)
    requires cfg.Valid() && cfg.rate >= 0 && gap >= 0
    ensures cfg.rate * (gap / cfg.interval) >= 0 && TruncDiv(gap, cfg.interval) * cfg.rate == cfg.rate * (gap / cfg.interval)
  {
    DivMono(0, gap, cfg.interval);
    MulMono(0, gap / cfg.interval, cfg.rate);
  }

  // A known visitor finds what it had and what the whole intervals since have earned, up to the burst.
  lemma KnownFinds(cfg: Config, v: Visitor, since: int, stamp: int)
    requires cfg.Valid() && cfg.rate >= 0 && v.lastCheck <= since
    ensures var found := Min(v.tokens + cfg.rate * ((since - v.lastCheck) / cfg.interval), cfg.burst);
            Decide(cfg, Some(v), since, stamp) == (Visitor(if found > 0 then found - 1 else found, stamp), found > 0)
  {
    GainIsPositive(cfg, since - v.lastCheck);
  }

  lemma LeastRoomMoves(cfg: Config, calls: seq<Step>, verdicts: seq<Verdict>, ip: string, k: int, found: int)
    requires cfg.Valid() && 0 < k < |calls| == |verdicts|
    requires IsLeast(found, Rooms(cfg, calls, verdicts, ip, k - 1)) && verdicts[k - 1] == Verdict(ip, found > 0)
    ensures var gain := cfg.rate * (Gap(calls, k) / cfg.interval);
            IsLeast(Min(found - (if found > 0 then 1 else 0) + gain, cfg.burst), Rooms(cfg, calls, verdicts, ip, k))
  {
    var before, after := Rooms(cfg, calls, verdicts, ip, k - 1), Rooms(cfg, calls, verdicts, ip, k);
    var took, gain := if found > 0 then 1 else 0, cfg.rate * (Gap(calls, k) / cfg.interval);
    forall i | 0 <= i < k ensures after[i] == before[i] - took + gain { RoomMoves(cfg, calls, verdicts, ip, i, k - 1); }
    assert verdicts[k..k] == [] && after[k] == cfg.burst;
    LeastMoves(before, after, found, took, gain, cfg.burst);
  }

  lemma FirstStands(cfg: Config, every: int, calls: seq<Step>, ip: string)
    requires cfg.Valid() && cfg.burst >= 1 && AllFrom(calls, ip) && calls != []
    ensures Stands(cfg, every, calls, ip, 0)
  {
    var verdicts := Verdicts(cfg, every, map[], calls);
    CallAt(cfg, every, calls, ip, 0);
    assert calls[..0] == [] && verdicts[0..0] == [];
    assert Rooms(cfg, calls, verdicts, ip, 0) == [cfg.burst];
    assert IsLeast(cfg.burst, Rooms(cfg, calls, verdicts, ip, 0));
  }

  lemma NextStands(cfg: Config, every: int, calls: seq<Step>, ip: string, k: int)
    requires cfg.Valid() && cfg.rate >= 0 && cfg.burst >= 1
    requires AllFrom(calls, ip) && Successive(calls) && 0 < k < |calls| && Stands(cfg, every, calls, ip, k - 1)
    ensures Stands(cfg, every, calls, ip, k)
  {
    var verdicts := Verdicts(cfg, every, map[], calls);
    CallAt(cfg, every, calls, ip, k);
    var v := AfterAll(cfg, every, map[], calls[..k])[ip];
    var found :| IsLeast(found, Rooms(cfg, calls, verdicts, ip, k - 1)) && found >= 0
      && verdicts[k - 1] == Verdict(ip, found > 0) && v.tokens == if found > 0 then found - 1 else found;
    assert calls[k].since - v.lastCheck == Gap(calls, k);
    LeastRoomMoves(cfg, calls, verdicts, ip, k, found);
    GainIsPositive(cfg, Gap(calls, k));
    KnownFinds(cfg, v, calls[k].since, calls[k].stamp);
  }

  lemma {:induction false} RecordStands(cfg: Config, every: int, calls: seq<Step>, ip: string, k: int)
    requires cfg.Valid() && cfg.rate >= 0 && cfg.burst >= 1
    requires AllFrom(calls, ip) && Successive(calls) && 0 <= k < |calls|
    ensures Stands(cfg, every, calls, ip, k)
    decreases k
  {
    if k == 0 {
      FirstStands(cfg, every, calls, ip);
    } else {
      RecordStands(cfg, every, calls, ip, k - 1);
      NextStands(cfg, every, calls, ip, k);
    }
  }

  // Main result for one address: a call is admitted exactly when no stretch of the history, from any
  // call i on, has used up the burst and what the whole intervals between its calls have earned.
  lemma AdmittedIff(cfg: Config, every: int, calls: seq<Step>, ip: string, k: int)
    requires cfg.Valid() && cfg.rate >= 0 && cfg.burst >= 1
    requires AllFrom(calls, ip) && Successive(calls) && 0 <= k < |calls|
    ensures var verdicts := Verdicts(cfg, every, map[], calls);
            |verdicts| == |calls| && verdicts[k].ip == ip &&
            (verdicts[k].ok <==> forall i | 0 <= i <= k :: Admitted(verdicts[i..k], ip) < cfg.burst + Earned(cfg, calls, i, k))
  {
    var verdicts := Verdicts(cfg, every, map[], calls);
    RecordStands(cfg, every, calls, ip, k);
    var rooms := Rooms(cfg, calls, verdicts, ip, k);
    var found :| IsLeast(found, rooms) && verdicts[k] == Verdict(ip, found > 0);
    if found > 0 {
      forall i | 0 <= i <= k ensures Admitted(verdicts[i..k], ip) < cfg.burst + Earned(cfg, calls, i, k) {
        assert found <= rooms[i];
      }
    } else {
      var i :| 0 <= i < |rooms| && rooms[i] == found;
      assert !(Admitted(verdicts[i..k], ip) < cfg.burst + Earned(cfg, calls, i, k));
    }
  }

  lemma {:induction false} OwnCallsFollow(now: int, steps: seq<Step>, ip: string)
    requires Ordered(now, steps)
    ensures AllFrom(OwnCalls(steps, ip), ip) && Successive(OwnCalls(steps, ip))
    ensures OwnCalls(steps, ip) != [] ==> now <= OwnCalls(steps, ip)[0].Start()
    decreases |steps|
  {
    if steps != [] {
      var s, rest := steps[0], OwnCalls(steps[1..], ip);
      OwnCallsFollow(s.End(), steps[1..], ip);
      var own := OwnCalls(steps, ip);
      if s.Call? && s.ip == ip {
        assert own == [s] + rest;
        forall k | 0 < k < |own| ensures Gap(own, k) >= 0 {
          if k > 1 { assert Gap(own, k) == Gap(rest, k - 1); }
        }
      } else {
        assert own == rest;
      }
    }
  }

  // Main result: in any run of calls from any addresses, the k-th call of an address is admitted
  // exactly when every stretch of its own calls up to there leaves room.
  lemma HistoryDecides(cfg: Config, every: int, start: int, steps: seq<Step>, ip: string, k: int)
    requires cfg.Valid() && cfg.rate >= 0 && cfg.burst >= 1
    requires Ordered(start, steps) && forall s | s in steps :: s.Call?
    requires 0 <= k < |OwnCalls(steps, ip)|
    ensures var own, verdicts := OwnCalls(steps, ip), OwnVerdicts(Verdicts(cfg, every, map[], steps), ip);
            |verdicts| == |own| &&
            (verdicts[k].ok <==> forall i | 0 <= i <= k :: Admitted(verdicts[i..k], ip) < cfg.burst + Earned(cfg, own, i, k))
  {
    OwnCallsFollow(start, steps, ip);
    OwnCallsDecide(cfg, every, map[], map[], steps, ip);
    AdmittedIff(cfg, every, OwnCalls(steps, ip), ip, k);
  }

  // ------------------------------------------------------------------ what an instant admits

  lemma {:induction false} AdmittedUpTo(verdicts: seq<Verdict>, ip: string, found: int)
    requires forall j | 0 <= j < |verdicts| :: verdicts[j] == Verdict(ip, j < found)
    ensures Admitted(verdicts, ip) == Max(Min(|verdicts|, found), 0)
  {
    if verdicts != [] {
      var rest := verdicts[1..];
      forall j | 0 <= j < |rest| ensures rest[j] == Verdict(ip, j < found - 1) { assert rest[j] == verdicts[j + 1]; }
      AdmittedUpTo(rest, ip, found - 1);
    }
  }

  // In any state of the table, m simultaneous calls get what is left and what the whole intervals
  // since the last call earned, up to the burst.
  lemma FloodAdmits(cfg: Config, every: int, vs: Visitors, ip: string, at: int, m: nat)
    requires cfg.Valid() && cfg.burst >= 1 && cfg.rate >= 0 && (ip in vs ==> vs[ip].lastCheck <= at)
    ensures Admitted(Verdicts(cfg, every, vs, Flood(ip, at, m)), ip) ==
              if ip !in vs then Min(m, cfg.burst)
              else Max(Min(m, Min(cfg.burst, vs[ip].tokens + ((at - vs[ip].lastCheck) / cfg.interval) * cfg.rate)), 0)
  {
    FloodVerdicts(cfg, every, vs, ip, at, m);
    AdmittedUpTo(Verdicts(cfg, every, vs, Flood(ip, at, m)), ip, Found(cfg, vs, ip, at));
    if ip in vs { GainIsPositive(cfg, at - vs[ip].lastCheck); }
  }

  // A new address that makes a calls, is idle for n whole intervals, and makes m calls.
  lemma IdleThenFlood(cfg: Config, every: int, ip: string, at: int, a: nat, later: int, m: nat)
    requires cfg.Valid() && cfg.burst >= 1 && cfg.rate >= 0 && a <= cfg.burst && at <= later
    ensures var vs, n := AfterAll(cfg, every, map[], Flood(ip, at, a)), (later - at) / cfg.interval;
            Admitted(Verdicts(cfg, every, vs, Flood(ip, later, m)), ip) == Min(m, Min(cfg.burst, cfg.burst - a + n * cfg.rate))
  {
    var vs := AfterAll(cfg, every, map[], Flood(ip, at, a));
    GainIsPositive(cfg, later - at);
    if a > 0 {
      var f := Flood(ip, at, a);
      assert f[1..] == Flood(ip, at, a - 1);
      DrainKnown(cfg, every, After(cfg, every, map[], f[0]), ip, at, a - 1);
      assert vs == map[ip := Visitor(cfg.burst - a, at)];
    }
    FloodAdmits(cfg, every, vs, ip, later, m);
  }
}
