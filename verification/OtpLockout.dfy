// OTP validation with its lockout: five recorded failures within five minutes of the first one
// lock a (user, OTP) pair. A call checks the lockout and records its result in two separate
// critical sections, so calls in flight can slip past the check together.
module OtpLockout {
  import opened Wrappers

  // Nanoseconds of the monotonic clock.
  const WINDOW := 5 * 60 * 1_000_000_000
  const MAX_FAILURES := 5

  datatype FailedEntry = FailedEntry(count: int, firstFail: int)

  type FailedMap = map<string, FailedEntry>

  datatype Otp = Otp(userID: string, secret: string, expiresAt: string, valid: string)

  datatype ValidateError =
    | TooManyFailedAttempts | StoreError | OtpNotFound | OtpNotValid | InvalidExpiresAt | OtpExpired | InvalidSecret

  // ------------------------------------------------------------------ the key

  function Digit(n: nat): char
    requires n < 10
  {
    '0' + n as char
  }

  function Digits(n: nat): string {
    if n < 10 then [Digit(n)] else Digits(n / 10) + [Digit(n % 10)]
  }

  // %d
  function Decimal(n: int): string {
    if n < 0 then "-" + Digits(-n) else Digits(n)
  }

  function FailKey(userID: string, id: int): string {
    userID + ":" + Decimal(id)
  }

  // ------------------------------------------------------------------ the two critical sections

  predicate EntryExpired(m: FailedMap, key: string, now: int) {
    key in m && now - m[key].firstFail > WINDOW
  }

  function AfterCheck(m: FailedMap, key: string, now: int): FailedMap {
    if EntryExpired(m, key, now) then m - {key} else m
  }

  predicate Locked(m: FailedMap, key: string, now: int) {
    key in m && !EntryExpired(m, key, now) && m[key].count >= MAX_FAILURES
  }

  // A failure is added to whatever entry is there, also to one that has expired meanwhile.
  function AfterFailure(m: FailedMap, key: string, now: int): FailedMap {
    var e := if key in m then m[key] else FailedEntry(0, now);
    m[key := e.(count := e.count + 1)]
  }

  // What happens between the two sections, on the row that was read.
  datatype Judgement = Refused(error: ValidateError) | WrongCode | RightCode

  // Decimal parsing, AES-GCM and base64 are library code: `parse` and `open` stand for them.
  class OtpService {
    var failed: FailedMap
    var otps: map<int, Otp>
    const encrypted: bool
    const parse: string -> Option<int>
    const open: string -> Option<string>

    constructor (otps: map<int, Otp>, encrypted: bool, parse: string -> Option<int>, open: string -> Option<string>)
      ensures failed == map[] && this.otps == otps && this.encrypted == encrypted && this.parse == parse && this.open == open
    {
      this.failed := map[];
      this.otps := otps;
      this.encrypted := encrypted;
      this.parse := parse;
      this.open := open;
    }

    function Secret(o: Otp): Option<string> {
      if !encrypted || o.secret == "" then Some(o.secret) else open(o.secret)
    }

    // The answer the row calls for. `storeUp` says whether the lookup succeeded.
    function Judge(id: int, userID: string, code: string, storeUp: bool, nowMillis: int): (j: Judgement)
      reads this`otps
      ensures !storeUp ==> j == Refused(StoreError)
      ensures storeUp && (id !in otps || otps[id].userID != userID) ==> j == Refused(OtpNotFound)
      ensures storeUp && id in otps && otps[id].userID == userID ==>
                var o := otps[id];
                && (o.valid != "true" <==> j == Refused(OtpNotValid))
                && (o.valid == "true" && parse(o.expiresAt) == None <==> j == Refused(InvalidExpiresAt))
                && (o.valid == "true" && parse(o.expiresAt).Some? && parse(o.expiresAt).value < nowMillis <==> j == Refused(OtpExpired))
                && (o.valid == "true" && parse(o.expiresAt).Some? && nowMillis <= parse(o.expiresAt).value ==>
                      if !encrypted || o.secret == "" then j == (if code == o.secret then RightCode else WrongCode)
                      else if open(o.secret) == None then j == Refused(InvalidSecret)
                      else j == (if open(o.secret) == Some(code) then RightCode else WrongCode))
    {
      if !storeUp then Refused(StoreError)
      else if id !in otps || otps[id].userID != userID then Refused(OtpNotFound)
      else if otps[id].valid != "true" then Refused(OtpNotValid)
      else if parse(otps[id].expiresAt).None? then Refused(InvalidExpiresAt)
      else if nowMillis > parse(otps[id].expiresAt).value then Refused(OtpExpired)
      else if Secret(otps[id]).None? then Refused(InvalidSecret)
      else if code == Secret(otps[id]).value then RightCode
      else WrongCode
    }

    method CheckLockout(key: string, now: int) returns (locked: bool)
      modifies this`failed
      ensures locked == Locked(old(failed), key, now)
      ensures failed == AfterCheck(old(failed), key, now)
    {
      var found := key in failed;
      if found && now - failed[key].firstFail > WINDOW {
        failed := failed - {key};
        found := false;
      }
      locked := found && failed[key].count >= MAX_FAILURES;
    }

    method RecordFailure(key: string, now: int)
      modifies this`failed
      ensures failed == AfterFailure(old(failed), key, now)
    {
      if key !in failed {
        failed := failed[key := FailedEntry(0, now)];
      }
      var e := failed[key];
      failed := failed[key := e.(count := e.count + 1)];
    }

    method ClearFailures(key: string)
      modifies this`failed
      ensures failed == old(failed) - {key}
    {
      failed := failed - {key};
    }

    // One call running alone. The clock is read for the check, for the expiry and for the record.
    method Validate(id: int, userID: string, code: string, storeUp: bool, checkTime: int, nowMillis: int, recordTime: int)
      returns (ok: bool, error: Option<ValidateError>)
      modifies this`failed
      ensures var key := FailKey(userID, id);
              var checked := AfterCheck(old(failed), key, checkTime);
              if Locked(old(failed), key, checkTime) then
                !ok && error == Some(TooManyFailedAttempts) && failed == checked
              else match Judge(id, userID, code, storeUp, nowMillis)
                case Refused(e) => !ok && error == Some(e) && failed == checked
                case WrongCode => !ok && error == None && failed == AfterFailure(checked, key, recordTime)
                case RightCode => ok && error == None && failed == checked - {key}
      // When a code is accepted.
      ensures ok <==>
              && !(var key := FailKey(userID, id); key in old(failed) && checkTime - old(failed)[key].firstFail <= WINDOW && old(failed)[key].count >= 5)
              && storeUp && id in otps && otps[id].userID == userID && otps[id].valid == "true"
              && parse(otps[id].expiresAt).Some? && nowMillis <= parse(otps[id].expiresAt).value
              && (if encrypted && otps[id].secret != "" then open(otps[id].secret) == Some(code) else otps[id].secret == code)
      // When it is refused, and why.
      ensures error == Some(TooManyFailedAttempts) <==>
              var key := FailKey(userID, id); key in old(failed) && checkTime - old(failed)[key].firstFail <= WINDOW && old(failed)[key].count >= 5
      ensures error == Some(StoreError) <==> error != Some(TooManyFailedAttempts) && !storeUp
      ensures error == Some(OtpNotFound) <==>
              error != Some(TooManyFailedAttempts) && storeUp && (id !in otps || otps[id].userID != userID)
      ensures error == Some(OtpNotValid) <==>
              error != Some(TooManyFailedAttempts) && storeUp && id in otps && otps[id].userID == userID && otps[id].valid != "true"
      ensures error == Some(InvalidExpiresAt) <==>
              error != Some(TooManyFailedAttempts) && storeUp && id in otps && otps[id].userID == userID && otps[id].valid == "true"
              && parse(otps[id].expiresAt) == None
      ensures error == Some(OtpExpired) <==>
              error != Some(TooManyFailedAttempts) && storeUp && id in otps && otps[id].userID == userID && otps[id].valid == "true"
              && parse(otps[id].expiresAt).Some? && parse(otps[id].expiresAt).value < nowMillis
      ensures error == Some(InvalidSecret) <==>
              error != Some(TooManyFailedAttempts) && storeUp && id in otps && otps[id].userID == userID && otps[id].valid == "true"
              && parse(otps[id].expiresAt).Some? && nowMillis <= parse(otps[id].expiresAt).value
              && encrypted && otps[id].secret != "" && open(otps[id].secret) == None
      // A call for a row of somebody else is never right and counts no failure.
      ensures id in otps && otps[id].userID != userID ==>
                !ok && error.Some? && (failed == old(failed) || failed == old(failed) - {FailKey(userID, id)})
    {
      var key := FailKey(userID, id);
      var locked := CheckLockout(key, checkTime);
      if locked { return false, Some(TooManyFailedAttempts); }
      if !storeUp { return false, Some(StoreError); }
      if id !in otps || otps[id].userID != userID { return false, Some(OtpNotFound); }
      var o := otps[id];
      if o.valid != "true" { return false, Some(OtpNotValid); }
      var expiresAt := parse(o.expiresAt);
      if expiresAt.None? { return false, Some(InvalidExpiresAt); }
      if nowMillis > expiresAt.value { return false, Some(OtpExpired); }
      var secret := Secret(o);
      if secret.None? { return false, Some(InvalidSecret); }
      if code != secret.value {
        RecordFailure(key, recordTime);
        return false, None;
      }
      ClearFailures(key);
      return true, None;
    }
  }

  // ------------------------------------------------------------------ the key separates pairs

  lemma {:induction false} DigitsAreNumberChars(n: nat)
    ensures |Digits(n)| >= 1 && forall c | c in Digits(n) :: '0' <= c <= '9'
    ensures n >= 10 ==> |Digits(n)| >= 2
  {
    if n >= 10 { DigitsAreNumberChars(n / 10); }
  }

  lemma {:induction false} DigitsInjective(m: nat, n: nat)
    requires Digits(m) == Digits(n)
    ensures m == n
  {
    DigitsAreNumberChars(m);
    DigitsAreNumberChars(n);
    var s, t := Digits(m), Digits(n);
    if m >= 10 {
      DigitsAreNumberChars(m / 10);
      assert n >= 10;
      assert s[..|s| - 1] == Digits(m / 10) && t[..|t| - 1] == Digits(n / 10);
      assert s[|s| - 1] == Digit(m % 10) && t[|t| - 1] == Digit(n % 10);
      DigitsInjective(m / 10, n / 10);
    } else {
      assert n < 10;
      assert s[0] == Digit(m) && t[0] == Digit(n);
    }
  }

  lemma DecimalInjective(m: int, n: int)
    requires Decimal(m) == Decimal(n)
    ensures m == n
  {
    var a, b := if m < 0 then -m else m, if n < 0 then -n else n;
    DigitsAreNumberChars(a);
    DigitsAreNumberChars(b);
    assert Digits(a)[0] in Digits(a) && Digits(b)[0] in Digits(b);
    assert m < 0 <==> n < 0;
    if m < 0 {
      assert Decimal(m)[1..] == Digits(a) && Decimal(n)[1..] == Digits(b);
    }
    DigitsInjective(a, b);
  }

  lemma DecimalHasNoColon(n: int)
    ensures ':' !in Decimal(n)
  {
    DigitsAreNumberChars(if n < 0 then -n else n);
  }

  // Two pairs share a counter only if they are the same pair, whatever the user ids contain.
  lemma FailKeyInjective(u: string, i: int, v: string, j: int)
    requires FailKey(u, i) == FailKey(v, j)
    ensures u == v && i == j
  {
    var a, b := Decimal(i), Decimal(j);
    DecimalHasNoColon(i);
    DecimalHasNoColon(j);
    var key := FailKey(u, i);
    assert key == u + ":" + a && key == v + ":" + b;
    assert key[|u|] == ':' && key[|v|] == ':';
    assert forall x | |u| < x < |key| :: key[x] == a[x - |u| - 1];
    assert forall x | |v| < x < |key| :: key[x] == b[x - |v| - 1];
    assert u == key[..|u|] && v == key[..|v|];
    assert a == key[|u| + 1..] && b == key[|v| + 1..];
    DecimalInjective(i, j);
  }
}

// Any number of calls, interleaved at their critical sections.
module OtpLockoutRuns {
  import opened Wrappers
  import opened OtpLockout

  // Check is the first critical section; Wrong and Right are the second one; Abandon is a call
  // that ends between the two (no row, expired, unreadable secret, store error).
  datatype Step =
    | Check(key: string, now: int)
    | Wrong(key: string, now: int)
    | Right(key: string, now: int)
    | Abandon(key: string, now: int)

  // inFlight counts the calls past the lockout check that have not finished.
  datatype State = State(failed: FailedMap, inFlight: map<string, nat>) {
    function Flying(key: string): nat {
      if key in inFlight then inFlight[key] else 0
    }

    function Taken(key: string): State { this.(inFlight := inFlight[key := Flying(key) + 1]) }

    function Done(key: string): State { this.(inFlight := inFlight[key := Max(Flying(key) - 1, 0)]) }
  }

  predicate Enabled(s: State, step: Step) {
    step.Check? || s.Flying(step.key) > 0
  }

  function Next(s: State, step: Step): State {
    match step
    case Check(key, now) =>
      var t := s.(failed := AfterCheck(s.failed, key, now));
      if Locked(s.failed, key, now) then t else t.Taken(key)
    case Wrong(key, now) => s.(failed := AfterFailure(s.failed, key, now)).Done(key)
    case Right(key, _) => s.(failed := s.failed - {key}).Done(key)
    case Abandon(key, _) => s.Done(key)
  }

  function Before(steps: seq<Step>): seq<Step>
    requires steps != []
  {
    steps[..|steps| - 1]
  }

  function Last(steps: seq<Step>): Step
    requires steps != []
  {
    steps[|steps| - 1]
  }

  function Exec(steps: seq<Step>): State {
    if steps == [] then State(map[], map[]) else Next(Exec(Before(steps)), Last(steps))
  }

  // A run on a clock that never goes back, with at most k calls of one key in flight at any time.
  predicate Legal(steps: seq<Step>, key: string, k: nat) {
    steps == [] ||
    (var before := Before(steps);
     && Legal(before, key, k)
     && Enabled(Exec(before), Last(steps))
     && (before != [] ==> Last(before).now <= Last(steps).now)
     && Exec(steps).Flying(key) <= k)
  }

  function Count(s: State, key: string): int {
    if key in s.failed then s.failed[key].count else 0
  }

  // ------------------------------------------------------------------ what the map records

  predicate WrongAt(steps: seq<Step>, key: string, i: int) {
    0 <= i < |steps| && steps[i].Wrong? && steps[i].key == key
  }

  // Step w is the first failure of the key after step r.
  predicate FirstAfter(steps: seq<Step>, key: string, r: int, w: int) {
    r < w && WrongAt(steps, key, w) && forall v | 0 <= v < w && WrongAt(steps, key, v) :: v <= r
  }

  ghost function WrongsAfter(steps: seq<Step>, key: string, r: int): set<int> {
    set i | 0 <= i < |steps| && r < i && WrongAt(steps, key, i)
  }

  // The last step of the key that is a right code, or a check more than a window after the first
  // failure since the previous such step; -1 when there is none.
  ghost function LastReset(steps: seq<Step>, key: string): (r: int)
    ensures -1 <= r < |steps|
  {
    if steps == [] then -1
    else
      var before, last := Before(steps), Last(steps);
      var r := LastReset(before, key);
      if last.key == key &&
         (last.Right? || (last.Check? && exists w: nat :: FirstAfter(before, key, r, w) && last.now - before[w].now > WINDOW))
      then |steps| - 1
      else r
  }

  lemma WrongsStep(steps: seq<Step>, key: string, r: int)
    requires steps != [] && -1 <= r < |steps| - 1
    ensures var before, n := Before(steps), |steps| - 1;
            |WrongsAfter(steps, key, r)| == |WrongsAfter(before, key, r)| + if WrongAt(steps, key, n) then 1 else 0
    ensures forall w: int | 0 <= w < |steps| - 1 :: FirstAfter(steps, key, r, w) == FirstAfter(Before(steps), key, r, w)
  {
    var before, n := Before(steps), |steps| - 1;
    assert forall i | 0 <= i < n :: WrongAt(steps, key, i) == WrongAt(before, key, i);
    assert WrongsAfter(steps, key, r) == WrongsAfter(before, key, r) + if WrongAt(steps, key, n) then {n} else {};
  }

  // The entry counts the failures after the last reset, and dates from the first of them.
  ghost predicate CountsSinceReset(steps: seq<Step>, key: string) {
    var r, entry := LastReset(steps, key), Lookup(Exec(steps).failed, key);
    && (entry.None? ==> WrongsAfter(steps, key, r) == {})
    && (entry.Some? ==>
          entry.value.count == |WrongsAfter(steps, key, r)| &&
          exists w: nat :: FirstAfter(steps, key, r, w) && entry.value.firstFail == steps[w].now)
  }

  lemma OnlyOneFirst(steps: seq<Step>, key: string, r: int, w: nat)
    requires FirstAfter(steps, key, r, w)
    ensures forall v: nat | FirstAfter(steps, key, r, v) :: v == w
    ensures w in WrongsAfter(steps, key, r)
  {
  }

  // A check resets exactly when it finds the entry expired.
  lemma ExpiryResets(steps: seq<Step>, key: string)
    requires steps != [] && CountsSinceReset(Before(steps), key) && Last(steps).Check? && Last(steps).key == key
    ensures EntryExpired(Exec(Before(steps)).failed, key, Last(steps).now) <==> LastReset(steps, key) == |steps| - 1
  {
    var before := Before(steps);
    var r, entry := LastReset(before, key), Lookup(Exec(before).failed, key);
    if entry.Some? {
      var w: nat :| FirstAfter(before, key, r, w) && entry.value.firstFail == before[w].now;
      OnlyOneFirst(before, key, r, w);
    } else if w: nat :| FirstAfter(before, key, r, w) {
      OnlyOneFirst(before, key, r, w);
    }
  }

  lemma CountStep(steps: seq<Step>, key: string)
    requires steps != [] && CountsSinceReset(Before(steps), key)
    ensures CountsSinceReset(steps, key)
  {
    var before, last, n := Before(steps), Last(steps), |steps| - 1;
    var r, entry := LastReset(before, key), Lookup(Exec(before).failed, key);
    WrongsStep(steps, key, r);
    if last.key != key {
      OtherKeysCannotTouch(Exec(before), last, key);
    } else if last.Check? {
      ExpiryResets(steps, key);
    }
    if entry.Some? {
      var w: nat :| FirstAfter(before, key, r, w) && entry.value.firstFail == before[w].now;
      assert FirstAfter(steps, key, r, w);
    } else if WrongAt(steps, key, n) {
      assert forall v | 0 <= v < n && WrongAt(steps, key, v) && r < v :: v in WrongsAfter(before, key, r);
      assert FirstAfter(steps, key, r, n);
    }
  }

  lemma {:induction false} EntryCountsSinceReset(steps: seq<Step>, key: string)
    ensures CountsSinceReset(steps, key)
  {
    if steps != [] {
      EntryCountsSinceReset(Before(steps), key);
      CountStep(steps, key);
    }
  }

  // Main result: a call for the key is refused exactly when at least five failures were recorded
  // since the last reset and the first of them is no older than the window.
  lemma LockedExactlyDuringStreak(steps: seq<Step>, key: string, now: int)
    ensures var r := LastReset(steps, key);
            Locked(Exec(steps).failed, key, now) <==>
            |WrongsAfter(steps, key, r)| >= MAX_FAILURES
            && exists w: nat :: FirstAfter(steps, key, r, w) && now - steps[w].now <= WINDOW
  {
    EntryCountsSinceReset(steps, key);
    var r := LastReset(steps, key);
    if w: nat :| FirstAfter(steps, key, r, w) {
      OnlyOneFirst(steps, key, r, w);
    }
  }

  // ------------------------------------------------------------------ how far a counter can go

  lemma OtherKeysCannotTouch(s: State, step: Step, key: string)
    requires step.key != key
    ensures Lookup(Next(s, step).failed, key) == Lookup(s.failed, key)
    ensures Next(s, step).Flying(key) == s.Flying(key)
  {
  }

  // Main result: recorded failures plus calls that may still fail never exceed 4 + k.
  lemma {:induction false} LockoutBound(steps: seq<Step>, key: string, k: nat)
    requires Legal(steps, key, k)
    ensures Count(Exec(steps), key) + Exec(steps).Flying(key) <= MAX_FAILURES - 1 + k
  {
    if steps != [] {
      LockoutBound(Before(steps), key, k);
      if Last(steps).key != key {
        OtherKeysCannotTouch(Exec(Before(steps)), Last(steps), key);
      }
    }
  }

  lemma SequentialCallsStopAtFive(steps: seq<Step>, key: string)
    requires Legal(steps, key, 1)
    ensures Count(Exec(steps), key) <= 5
  {
    LockoutBound(steps, key, 1);
  }

  lemma ExecAppend(steps: seq<Step>, step: Step)
    ensures Exec(steps + [step]) == Next(Exec(steps), step)
  {
    assert Before(steps + [step]) == steps;
  }

  lemma LegalAppend(steps: seq<Step>, k: nat, step: Step)
    requires Legal(steps, step.key, k) && Enabled(Exec(steps), step)
    requires steps != [] ==> Last(steps).now <= step.now
    requires Next(Exec(steps), step).Flying(step.key) <= k
    ensures Legal(steps + [step], step.key, k) && Exec(steps + [step]) == Next(Exec(steps), step)
    ensures Last(steps + [step]) == step
  {
    assert Before(steps + [step]) == steps;
  }

  // A run at time zero in which `count` failures are recorded and `flying` calls are in flight.
  ghost predicate Reaches(steps: seq<Step>, key: string, k: nat, count: nat, flying: nat) {
    && Legal(steps, key, k)
    && (steps != [] ==> Last(steps).now == 0)
    && Exec(steps).Flying(key) == flying
    && Lookup(Exec(steps).failed, key) == if count == 0 then None else Some(FailedEntry(count, 0))
  }

  lemma OneMoreFlies(steps: seq<Step>, key: string, k: nat, count: nat, flying: nat) returns (steps': seq<Step>)
    requires Reaches(steps, key, k, count, flying) && flying < k && count < MAX_FAILURES
    ensures Reaches(steps', key, k, count, flying + 1)
  {
    LegalAppend(steps, k, Check(key, 0));
    steps' := steps + [Check(key, 0)];
  }

  lemma FailureIsCounted(s: State, step: Step, count: nat)
    requires step.Wrong? && step.now == 0 && s.Flying(step.key) > 0
    requires Lookup(s.failed, step.key) == if count == 0 then None else Some(FailedEntry(count, 0))
    ensures Lookup(Next(s, step).failed, step.key) == Some(FailedEntry(count + 1, 0))
    ensures Next(s, step).Flying(step.key) == s.Flying(step.key) - 1
  {
  }

  lemma OneMoreFails(steps: seq<Step>, key: string, k: nat, count: nat, flying: nat) returns (steps': seq<Step>)
    requires Reaches(steps, key, k, count, flying) && 0 < flying <= k
    ensures Reaches(steps', key, k, count + 1, flying - 1)
  {
    var step := Wrong(key, 0);
    FailureIsCounted(Exec(steps), step, count);
    LegalAppend(steps, k, step);
    steps' := steps + [step];
  }

  lemma AtRest(key: string, k: nat) returns (steps: seq<Step>)
    ensures Reaches(steps, key, k, 0, 0)
  {
    steps := [];
  }

  // Failing calls one after the other.
  lemma {:induction false} FailInTurn(key: string, k: nat, n: nat) returns (steps: seq<Step>)
    requires k >= 1 && n < MAX_FAILURES
    ensures Reaches(steps, key, k, n, 0)
    decreases n
  {
    if n == 0 {
      steps := AtRest(key, k);
    } else {
      steps := FailInTurn(key, k, n - 1);
      steps := OneMoreFlies(steps, key, k, n - 1, 0);
      steps := OneMoreFails(steps, key, k, n - 1, 1);
    }
  }

  // Calls that all pass the check before any of them fails.
  lemma {:induction false} FlyTogether(key: string, k: nat, n: nat) returns (steps: seq<Step>)
    requires k >= 1 && n <= k
    ensures Reaches(steps, key, k, MAX_FAILURES - 1, n)
    decreases n
  {
    if n == 0 {
      steps := FailInTurn(key, k, MAX_FAILURES - 1);
    } else {
      steps := FlyTogether(key, k, n - 1);
      steps := OneMoreFlies(steps, key, k, MAX_FAILURES - 1, n - 1);
    }
  }

  lemma {:induction false} FailTogether(key: string, k: nat, n: nat) returns (steps: seq<Step>)
    requires k >= 1 && n <= k
    ensures Reaches(steps, key, k, MAX_FAILURES - 1 + n, k - n)
    decreases n
  {
    if n == 0 {
      steps := FlyTogether(key, k, k);
    } else {
      steps := FailTogether(key, k, n - 1);
      steps := OneMoreFails(steps, key, k, MAX_FAILURES - 1 + n - 1, k - n + 1);
    }
  }

  // The bound is attained for every k, so it is the exact one.
  lemma LockoutBoundIsTight(key: string, k: nat)
    requires k >= 1
    ensures exists steps :: Legal(steps, key, k) && Count(Exec(steps), key) == MAX_FAILURES - 1 + k
  {
    var steps := FailTogether(key, k, k);
    assert Legal(steps, key, k) && key in Exec(steps).failed;
  }

  // ------------------------------------------------------------------ wrong codes over a whole run

  function Wrongs(steps: seq<Step>, key: string): nat {
    if steps == [] then 0
    else Wrongs(Before(steps), key) + if Last(steps).Wrong? && Last(steps).key == key then 1 else 0
  }

  // The instants of the first recorded failure and of the last lockout check of a key.
  function FirstWrong(steps: seq<Step>, key: string): Option<int> {
    if steps == [] then None
    else if FirstWrong(Before(steps), key).Some? then FirstWrong(Before(steps), key)
    else if Last(steps).Wrong? && Last(steps).key == key then Some(Last(steps).now)
    else None
  }

  function LastCheck(steps: seq<Step>, key: string): Option<int> {
    if steps == [] then None
    else if Last(steps).Check? && Last(steps).key == key then Some(Last(steps).now)
    else LastCheck(Before(steps), key)
  }

  function Span(first: Option<int>, check: Option<int>): nat {
    if first.Some? && check.Some? then Max(check.value - first.value, 0) else 0
  }

  function Elapsed(steps: seq<Step>, key: string): nat {
    Span(FirstWrong(steps, key), LastCheck(steps, key))
  }

  // No call for the key had the right code.
  predicate NeverRight(steps: seq<Step>, key: string) {
    steps == [] || (NeverRight(Before(steps), key) && !(Last(steps).Right? && Last(steps).key == key))
  }

  // How often a check found the entry of the key expired and dropped it.
  function Expiries(steps: seq<Step>, key: string): nat {
    if steps == [] then 0
    else
      Expiries(Before(steps), key)
      + if Last(steps).Check? && Last(steps).key == key
           && EntryExpired(Exec(Before(steps)).failed, key, Last(steps).now) then 1 else 0
  }

  // c * n by repeated addition, which keeps the induction linear.
  function Times(c: nat, n: nat): nat {
    if n == 0 then 0 else Times(c, n - 1) + c
  }

  lemma {:induction false} TimesIsProduct(c: nat, n: nat)
    ensures Times(c, n) == c * n
  {
    if n > 0 { TimesIsProduct(c, n - 1); }
  }

  // Successive entries start more than a window apart, and each takes at most `cap` failures.
  // entry, wrongs, expiries, first, check: what is known of one key after a run that ended at now.
  predicate EpochsApart(entry: Option<FailedEntry>, wrongs: nat, expiries: nat, first: Option<int>, check: Option<int>, now: Option<int>, cap: nat) {
    && wrongs <= Times(cap, expiries) + (if entry.Some? then entry.value.count else 0)
    && (entry.Some? ==> first.Some?)
    && (first.None? ==> expiries == 0 && wrongs == 0)
    && (first.Some? ==>
          && (entry.Some? ==> entry.value.firstFail >= first.value + Times(WINDOW + 1, expiries))
          && (expiries == 0 ==> entry.Some?)
          && (expiries > 0 ==> check.Some? && check.value >= first.value + Times(WINDOW + 1, expiries)))
    && (check.Some? ==> now.Some? && check.value <= now.value)
  }

  ghost predicate EpochsApartAfter(steps: seq<Step>, key: string, cap: nat) {
    EpochsApart(Lookup(Exec(steps).failed, key), Wrongs(steps, key), Expiries(steps, key),
                FirstWrong(steps, key), LastCheck(steps, key), if steps == [] then None else Some(Last(steps).now), cap)
  }

  lemma EpochStep(s: State, step: Step, wrongs: nat, expiries: nat, first: Option<int>, check: Option<int>, now: Option<int>, cap: nat)
    requires !step.Right? && Count(s, step.key) <= cap
    requires EpochsApart(Lookup(s.failed, step.key), wrongs, expiries, first, check, now, cap)
    requires now.Some? ==> now.value <= step.now
    ensures EpochsApart(Lookup(Next(s, step).failed, step.key),
                        if step.Wrong? then wrongs + 1 else wrongs,
                        if step.Check? && EntryExpired(s.failed, step.key, step.now) then expiries + 1 else expiries,
                        if first.None? && step.Wrong? then Some(step.now) else first,
                        if step.Check? then Some(step.now) else check,
                        Some(step.now), cap)
  {
    assert Times(cap, expiries + 1) == Times(cap, expiries) + cap;
    assert Times(WINDOW + 1, expiries + 1) == Times(WINDOW + 1, expiries) + (WINDOW + 1);
  }

  lemma OwnStepKeepsApart(steps: seq<Step>, key: string, cap: nat)
    requires steps != [] && Last(steps).key == key && !Last(steps).Right?
    requires EpochsApartAfter(Before(steps), key, cap) && Count(Exec(Before(steps)), key) <= cap
    requires Before(steps) != [] ==> Last(Before(steps)).now <= Last(steps).now
    ensures EpochsApartAfter(steps, key, cap)
  {
    var before, last := Before(steps), Last(steps);
    EpochStep(Exec(before), last, Wrongs(before, key), Expiries(before, key), FirstWrong(before, key),
              LastCheck(before, key), if before == [] then None else Some(Last(before).now), cap);
  }

  lemma OtherStepKeepsApart(steps: seq<Step>, key: string, cap: nat)
    requires steps != [] && Last(steps).key != key
    requires EpochsApartAfter(Before(steps), key, cap)
    requires Before(steps) != [] ==> Last(Before(steps)).now <= Last(steps).now
    ensures EpochsApartAfter(steps, key, cap)
  {
    OtherKeysCannotTouch(Exec(Before(steps)), Last(steps), key);
  }

  lemma LegalStep(steps: seq<Step>, key: string, k: nat)
    requires steps != [] && Legal(steps, key, k) && NeverRight(steps, key)
    ensures Legal(Before(steps), key, k) && NeverRight(Before(steps), key)
    ensures !(Last(steps).Right? && Last(steps).key == key)
    ensures Before(steps) != [] ==> Last(Before(steps)).now <= Last(steps).now
    ensures Count(Exec(Before(steps)), key) <= MAX_FAILURES - 1 + k
  {
    LockoutBound(Before(steps), key, k);
  }

  lemma {:induction false} EpochsStayApart(steps: seq<Step>, key: string, k: nat)
    requires Legal(steps, key, k)
    requires NeverRight(steps, key)
    ensures EpochsApartAfter(steps, key, MAX_FAILURES - 1 + k)
    decreases |steps|
  {
    if steps != [] {
      LegalStep(steps, key, k);
      EpochsStayApart(Before(steps), key, k);
      if Last(steps).key == key {
        OwnStepKeepsApart(steps, key, MAX_FAILURES - 1 + k);
      } else {
        OtherStepKeepsApart(steps, key, MAX_FAILURES - 1 + k);
      }
    }
  }

  // The whole windows in a stretch of time; an entry expires when more than a window has passed.
  function Windows(t: nat): nat {
    t / (WINDOW + 1)
  }

  lemma WindowsAtLeast(t: nat, n: nat)
    requires t >= n * (WINDOW + 1)
    ensures Windows(t) >= n
  {
  }

  lemma Budget(wrongs: nat, n: nat, q: nat, cap: nat)
    requires wrongs <= cap * n + cap && n <= q
    ensures wrongs <= cap * (q + 1)
  {
    MulMonotone(cap, n, q);
    assert cap * (q + 1) == cap * q + cap;
  }

  lemma MulMonotone(c: nat, a: nat, b: nat)
    requires a <= b
    ensures c * a <= c * b
  {
  }

  lemma EpochsFitInTime(entry: Option<FailedEntry>, wrongs: nat, expiries: nat, first: Option<int>, check: Option<int>, cap: nat)
    returns (n: nat)
    requires exists now :: EpochsApart(entry, wrongs, expiries, first, check, now, cap)
    requires entry.Some? ==> entry.value.count <= cap
    ensures wrongs <= cap * n + cap && n <= Windows(Span(first, check))
  {
    n := expiries;
    TimesIsProduct(cap, n);
    TimesIsProduct(WINDOW + 1, n);
    WindowsAtLeast(Span(first, check), n);
  }

  // Main result: as long as no code is right, the wrong codes compared in a run are at most
  // 4 + k for each whole window between the first failure and the last check, plus 4 + k more.
  lemma WrongCodeBudget(steps: seq<Step>, key: string, k: nat)
    requires Legal(steps, key, k)
    requires NeverRight(steps, key)
    ensures Wrongs(steps, key) <= (MAX_FAILURES - 1 + k) * (Windows(Elapsed(steps, key)) + 1)
  {
    EpochsStayApart(steps, key, k);
    LockoutBound(steps, key, k);
    var n := EpochsFitInTime(Lookup(Exec(steps).failed, key), Wrongs(steps, key), Expiries(steps, key),
                             FirstWrong(steps, key), LastCheck(steps, key), MAX_FAILURES - 1 + k);
    Budget(Wrongs(steps, key), n, Windows(Elapsed(steps, key)), MAX_FAILURES - 1 + k);
  }

  // ------------------------------------------------------------------ isolation

  function Only(steps: seq<Step>, key: string): seq<Step> {
    if steps == [] then []
    else Only(Before(steps), key) + if Last(steps).key == key then [Last(steps)] else []
  }

  lemma OnlyOwnEntryMatters(s: State, t: State, step: Step)
    requires Lookup(s.failed, step.key) == Lookup(t.failed, step.key)
    requires s.Flying(step.key) == t.Flying(step.key)
    ensures Lookup(Next(s, step).failed, step.key) == Lookup(Next(t, step).failed, step.key)
    ensures Next(s, step).Flying(step.key) == Next(t, step).Flying(step.key)
    ensures Locked(s.failed, step.key, step.now) == Locked(t.failed, step.key, step.now)
  {
  }

  lemma {:induction false} KeysAreIsolated(steps: seq<Step>, key: string)
    ensures Lookup(Exec(steps).failed, key) == Lookup(Exec(Only(steps, key)).failed, key)
    ensures Exec(steps).Flying(key) == Exec(Only(steps, key)).Flying(key)
  {
    if steps != [] {
      var before, last := Before(steps), Last(steps);
      KeysAreIsolated(before, key);
      if last.key == key {
        ExecAppend(Only(before, key), last);
        OnlyOwnEntryMatters(Exec(before), Exec(Only(before, key)), last);
      } else {
        OtherKeysCannotTouch(Exec(before), last, key);
        assert Only(steps, key) == Only(before, key);
      }
    }
  }

  datatype Pair = Pair(userID: string, id: int)

  // The steps taken for one pair, when step i was taken for pairs[i].
  function OnlyFor(steps: seq<Step>, pairs: seq<Pair>, pair: Pair): seq<Step>
    requires |steps| == |pairs|
  {
    if steps == [] then []
    else
      OnlyFor(Before(steps), pairs[..|steps| - 1], pair) + if pairs[|steps| - 1] == pair then [Last(steps)] else []
  }

  lemma {:induction false} OnlyForIsOnly(steps: seq<Step>, pairs: seq<Pair>, pair: Pair)
    requires |steps| == |pairs|
    requires forall i | 0 <= i < |steps| :: steps[i].key == FailKey(pairs[i].userID, pairs[i].id)
    ensures OnlyFor(steps, pairs, pair) == Only(steps, FailKey(pair.userID, pair.id))
  {
    if steps != [] {
      OnlyForIsOnly(Before(steps), pairs[..|steps| - 1], pair);
      var other := pairs[|steps| - 1];
      if Last(steps).key == FailKey(pair.userID, pair.id) {
        FailKeyInjective(other.userID, other.id, pair.userID, pair.id);
      }
    }
  }

  // Main result: what a run does to one (user, OTP) pair is what the calls for that pair do alone;
  // calls for other users or other ids change neither its counter nor any of its answers.
  lemma PairsAreIsolated(steps: seq<Step>, pairs: seq<Pair>, pair: Pair)
    requires |steps| == |pairs|
    requires forall i | 0 <= i < |steps| :: steps[i].key == FailKey(pairs[i].userID, pairs[i].id)
    ensures var key, alone := FailKey(pair.userID, pair.id), OnlyFor(steps, pairs, pair);
            && Lookup(Exec(steps).failed, key) == Lookup(Exec(alone).failed, key)
            && Exec(steps).Flying(key) == Exec(alone).Flying(key)
            && forall now :: Locked(Exec(steps).failed, key, now) == Locked(Exec(alone).failed, key, now)
  {
    OnlyForIsOnly(steps, pairs, pair);
    KeysAreIsolated(steps, FailKey(pair.userID, pair.id));
  }
}
