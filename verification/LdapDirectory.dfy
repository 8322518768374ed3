// The LDAP user directory of the messaging service, kept up to date from an event log that is
// delivered at least once.
module LdapDirectory {
  import opened Wrappers

  // An action of any other name is ignored by the consumer.
  datatype Action = UserProvisioned | UserDeleted | ConfigChanged | OtherAction

  datatype LdapEvent = LdapEvent(action: Action, userId: string, email: string, fullName: string, domain: string, orgId: string)

  datatype LdapUser = LdapUser(email: string, fullName: string, domain: string, orgId: string,
                               jpegPhoto: Option<string>, lastSyncedAt: int)

  // The collection; userId is its unique key.
  type Directory = map<string, LdapUser>

  function Upserted(dir: Directory, e: LdapEvent, now: int): Directory {
    var photo := if e.userId in dir then dir[e.userId].jpegPhoto else None;
    dir[e.userId := LdapUser(e.email, e.fullName, e.domain, e.orgId, photo, now)]
  }

  function Removed(dir: Directory, userId: string): Directory {
    dir - {userId}
  }

  function Cleared(dir: Directory, domain: string): Directory {
    map u | u in dir && dir[u].domain != domain :: dir[u]
  }

  function PhotoUpdated(dir: Directory, userId: string, domain: string, photo: string, now: int): Directory {
    if userId in dir && dir[userId].domain == domain then
      dir[userId := dir[userId].(jpegPhoto := Some(photo), lastSyncedAt := now)]
    else dir
  }

  function Applied(dir: Directory, e: LdapEvent, now: int): Directory {
    match e.action
    case UserProvisioned => Upserted(dir, e, now)
    case UserDeleted => Removed(dir, e.userId)
    case ConfigChanged => Cleared(dir, e.domain)
    case OtherAction => dir
  }

  // An absent value or header is the empty string.
  datatype Message = Message(value: string, xSignature: string, xHmacSignature: string)

  // The HMAC and the JSON parser are library code: `verify` and `parse` stand for them.
  datatype Codec = Codec(verify: (string, string) -> bool, parse: string -> Option<LdapEvent>) {
    // What a message asks for; a message without any signature header is not checked.
    function Decode(m: Message): Option<LdapEvent> {
      var signature := if m.xSignature != "" then m.xSignature else m.xHmacSignature;
      if m.value == "" then None
      else if signature != "" && !verify(m.value, signature) then None
      else parse(m.value)
    }
  }

  function Handled(dir: Directory, e: Option<LdapEvent>, storeUp: bool, now: int): Directory {
    if storeUp && e.Some? then Applied(dir, e.value, now) else dir
  }

  class LdapService {
    var users: Directory

    constructor ()
      ensures users == map[]
    {
      users := map[];
    }

    method UpsertUser(e: LdapEvent, now: int)
      modifies this
      ensures users == Upserted(old(users), e, now)
    {
      if e.userId in users {
        var u := users[e.userId];
        u := u.(email := e.email, fullName := e.fullName, domain := e.domain, orgId := e.orgId, lastSyncedAt := now);
        users := users[e.userId := u];
      } else {
        users := users[e.userId := LdapUser(e.email, e.fullName, e.domain, e.orgId, None, now)];
      }
    }

    method RemoveUser(userId: string)
      modifies this
      ensures users == Removed(old(users), userId)
    {
      users := users - {userId};
    }

    method ClearDomain(domain: string)
      modifies this
      ensures users == Cleared(old(users), domain)
    {
      var doomed := set u | u in users && users[u].domain == domain;
      users := users - doomed;
    }

    method UpdatePhoto(userId: string, domain: string, photo: string, now: int)
      modifies this
      ensures users == PhotoUpdated(old(users), userId, domain, photo, now)
    {
      if userId in users && users[userId].domain == domain {
        users := users[userId := users[userId].(jpegPhoto := Some(photo), lastSyncedAt := now)];
      }
    }
  }

  class LdapConsumer {
    const service: LdapService
    const codec: Codec

    constructor (service: LdapService, codec: Codec)
      ensures this.service == service && this.codec == codec
    {
      this.service := service;
      this.codec := codec;
    }

    // The callback never fails: a rejected or unreadable message and a store error are logged and
    // the position moves on.
    method EachMessage(m: Message, storeUp: bool, now: int)
      modifies service
      ensures service.users == Handled(old(service.users), codec.Decode(m), storeUp, now)
      ensures var signature := if m.xSignature != "" then m.xSignature else m.xHmacSignature;
              service.users ==
                if m.value == "" then old(service.users)
                else if signature != "" && !codec.verify(m.value, signature) then old(service.users)
                else if codec.parse(m.value) == None || !storeUp then old(service.users)
                else Applied(old(service.users), codec.parse(m.value).value, now)
    {
      if m.value == "" { return; }
      var signature := m.xSignature;
      if signature == "" { signature := m.xHmacSignature; }
      if signature != "" && !codec.verify(m.value, signature) { return; }
      var event := codec.parse(m.value);
      if event.None? || !storeUp { return; }
      match event.value.action {
        case UserProvisioned => service.UpsertUser(event.value, now);
        case UserDeleted => service.RemoveUser(event.value.userId);
        case ConfigChanged => service.ClearDomain(event.value.domain);
        case OtherAction =>
      }
    }
  }
}

// Convergence of the directory when the log is rewound and store calls fail.
module LdapConvergence {
  import opened Wrappers
  import opened LdapDirectory

  // The part of a user record that comes from the log alone.
  datatype Profile = Profile(email: string, fullName: string, domain: string, orgId: string)

  type Profiles = map<string, Profile>

  function ProfileOf(u: LdapUser): Profile {
    Profile(u.email, u.fullName, u.domain, u.orgId)
  }

  function ProfilesOf(dir: Directory): Profiles {
    map u | u in dir :: ProfileOf(dir[u])
  }

  // The decoded log: None is a message that asks for nothing.
  type Log = seq<Option<LdapEvent>>

  function Apply(ps: Profiles, entry: Option<LdapEvent>): Profiles {
    if entry.None? then ps
    else
      var e := entry.value;
      match e.action
      case UserProvisioned => ps[e.userId := Profile(e.email, e.fullName, e.domain, e.orgId)]
      case UserDeleted => ps - {e.userId}
      case ConfigChanged => map u | u in ps && ps[u].domain != e.domain :: ps[u]
      case OtherAction => ps
  }

  // The specification: every event once, in order.
  function Fold(ps: Profiles, log: Log): Profiles {
    if log == [] then ps else Apply(Fold(ps, log[..|log| - 1]), log[|log| - 1])
  }

  // ------------------------------------------------------------------ one user at a time

  predicate Resets(entry: Option<LdapEvent>, u: string) {
    entry.Some? && entry.value.userId == u && (entry.value.action.UserProvisioned? || entry.value.action.UserDeleted?)
  }

  predicate Clears(entry: Option<LdapEvent>, domain: string) {
    entry.Some? && entry.value.action.ConfigChanged? && entry.value.domain == domain
  }

  // The value an event that resets u leaves there.
  function ResetTo(entry: Option<LdapEvent>): Option<Profile>
    requires entry.Some?
  {
    var e := entry.value;
    if e.action.UserProvisioned? then Some(Profile(e.email, e.fullName, e.domain, e.orgId)) else None
  }

  function Filter(p: Option<Profile>, entry: Option<LdapEvent>): Option<Profile> {
    if p.Some? && Clears(entry, p.value.domain) then None else p
  }

  lemma ApplyOne(ps: Profiles, entry: Option<LdapEvent>, u: string)
    ensures Lookup(Apply(ps, entry), u) == if Resets(entry, u) then ResetTo(entry) else Filter(Lookup(ps, u), entry)
  {
  }

  // A log that resets u somewhere decides u whatever was there before.
  lemma {:induction false} ResetDecides(ps: Profiles, qs: Profiles, log: Log, u: string, i: nat)
    requires i < |log| && Resets(log[i], u)
    ensures Lookup(Fold(ps, log), u) == Lookup(Fold(qs, log), u)
    decreases |log|
  {
    var init, last := log[..|log| - 1], log[|log| - 1];
    ApplyOne(Fold(ps, init), last, u);
    ApplyOne(Fold(qs, init), last, u);
    if i < |log| - 1 {
      ResetDecides(ps, qs, init, u, i);
    }
  }

  // A log that never resets u can only drop it, and drops it when it clears its domain.
  predicate NeverResets(log: Log, u: string) {
    forall i | 0 <= i < |log| :: !Resets(log[i], u)
  }

  ghost predicate ClearsSomewhere(log: Log, domain: string) {
    exists i :: 0 <= i < |log| && Clears(log[i], domain)
  }

  lemma {:induction false} NoResetFilters(ps: Profiles, log: Log, u: string)
    requires NeverResets(log, u)
    ensures var p := Lookup(ps, u);
            Lookup(Fold(ps, log), u) == if p.Some? && ClearsSomewhere(log, p.value.domain) then None else p
    decreases |log|
  {
    if log != [] {
      var init, last := log[..|log| - 1], log[|log| - 1];
      NoResetFilters(ps, init, u);
      ApplyOne(Fold(ps, init), last, u);
      var p := Lookup(ps, u);
      if p.Some? {
        assert Clears(last, p.value.domain) ==> ClearsSomewhere(log, p.value.domain) by {
          assert log[|log| - 1] == last;
        }
        if i :| 0 <= i < |init| && Clears(init[i], p.value.domain) {
          assert log[i] == init[i];
        }
        if i :| 0 <= i < |log| && Clears(log[i], p.value.domain) && !Clears(last, p.value.domain) {
          assert init[i] == log[i];
        }
      }
    }
  }

  lemma SameProfiles(ps: Profiles, qs: Profiles)
    requires forall u :: Lookup(ps, u) == Lookup(qs, u)
    ensures ps == qs
  {
    forall u ensures (u in ps <==> u in qs) && (u in ps ==> ps[u] == qs[u]) {
      assert Lookup(ps, u) == Lookup(qs, u);
    }
  }

  lemma {:induction false} FoldConcat(ps: Profiles, a: Log, b: Log)
    ensures Fold(ps, a + b) == Fold(Fold(ps, a), b)
    decreases |b|
  {
    if b == [] {
      assert a + b == a;
    } else {
      assert (a + b)[..|a + b| - 1] == a + b[..|b| - 1];
      FoldConcat(ps, a, b[..|b| - 1]);
    }
  }

  // ------------------------------------------------------------------ handling offsets in any order

  lemma AfterReset(ps: Profiles, log: Log, u: string, i: nat)
    requires i < |log| && Resets(log[i], u) && NeverResets(log[i + 1..], u)
    ensures var p := ResetTo(log[i]);
            Lookup(Fold(ps, log), u) == if p.Some? && ClearsSomewhere(log[i + 1..], p.value.domain) then None else p
  {
    var init := log[..i + 1];
    assert log == init + log[i + 1..] && init[..i] == log[..i] && init[i] == log[i];
    FoldConcat(ps, init, log[i + 1..]);
    ApplyOne(Fold(ps, log[..i]), log[i], u);
    NoResetFilters(Fold(ps, init), log[i + 1..], u);
  }

  predicate Below(a: seq<nat>, m: nat) {
    forall p | 0 <= p < |a| :: a[p] < m
  }

  // The events at these offsets, in this order.
  function Picked(log: Log, a: seq<nat>): Log
    requires Below(a, |log|)
  {
    seq(|a|, p requires 0 <= p < |a| => log[a[p]])
  }

  ghost predicate Again(a: seq<nat>, p: nat, j: nat) {
    exists q :: p < q < |a| && a[q] == j
  }

  // Every offset below m is there, and after any offset all later ones below m come again: the
  // last occurrences are in increasing order.
  ghost predicate Settled(a: seq<nat>, m: nat) {
    && (forall k: nat | k < m :: k in a)
    && (forall p: nat, j: nat | p < |a| && a[p] < j < m :: Again(a, p, j))
  }

  lemma {:induction false} LastReset(log: Log, u: string) returns (i: nat)
    requires !NeverResets(log, u)
    ensures i < |log| && Resets(log[i], u) && NeverResets(log[i + 1..], u)
    decreases |log|
  {
    i := |log| - 1;
    if !Resets(log[i], u) {
      var before := log[..i];
      var j :| 0 <= j < |log| && Resets(log[j], u);
      assert before[j] == log[j];
      i := LastReset(before, u);
      var tail, rest := before[i + 1..], log[i + 1..];
      forall k | 0 <= k < |rest| ensures !Resets(rest[k], u) {
        if k < |tail| { assert tail[k] == rest[k]; }
      }
    }
  }

  lemma {:induction false} LastOccurrence(a: seq<nat>, x: nat) returns (p: nat)
    requires x in a
    ensures p < |a| && a[p] == x && forall q | p < q < |a| :: a[q] != x
    decreases |a|
  {
    p := |a| - 1;
    if a[p] != x {
      var before := a[..|a| - 1];
      p := LastOccurrence(before, x);
      assert forall q | p < q < |before| :: before[q] == a[q];
    }
  }

  ghost predicate SameClears(a: Log, b: Log) {
    forall domain: string :: ClearsSomewhere(a, domain) <==> ClearsSomewhere(b, domain)
  }

  // What follows the last occurrence of the last reset are later events, and all of them.
  lemma SettledTail(log: Log, a: seq<nat>, u: string, i: nat, p: nat)
    requires Below(a, |log|) && Settled(a, |log|)
    requires i < |log| && Resets(log[i], u) && NeverResets(log[i + 1..], u)
    requires p < |a| && a[p] == i && !Again(a, p, i)
    ensures NeverResets(Picked(log, a)[p + 1..], u)
    ensures SameClears(Picked(log, a)[p + 1..], log[i + 1..])
  {
    var picked, rest := Picked(log, a)[p + 1..], log[i + 1..];
    forall k: nat | k < |picked| ensures i < a[p + 1 + k] && picked[k] == rest[a[p + 1 + k] - i - 1] {
      assert a[p + 1 + k] < i ==> Again(a, p + 1 + k, i);
    }
    forall domain: string ensures ClearsSomewhere(picked, domain) <==> ClearsSomewhere(rest, domain) {
      if k :| 0 <= k < |rest| && Clears(rest[k], domain) {
        assert Again(a, p, i + 1 + k);
        var q :| p < q < |a| && a[q] == i + 1 + k;
        assert picked[q - p - 1] == rest[k];
      }
      if k :| 0 <= k < |picked| && Clears(picked[k], domain) {
        assert Clears(rest[a[p + 1 + k] - i - 1], domain);
      }
    }
  }

  lemma SettledWithoutReset(log: Log, a: seq<nat>, u: string)
    requires Below(a, |log|) && Settled(a, |log|) && NeverResets(log, u)
    ensures NeverResets(Picked(log, a), u)
    ensures SameClears(Picked(log, a), log)
  {
    var picked := Picked(log, a);
    forall domain: string ensures ClearsSomewhere(picked, domain) <==> ClearsSomewhere(log, domain) {
      if k: nat :| k < |log| && Clears(log[k], domain) {
        assert k in a;
        var q :| 0 <= q < |a| && a[q] == k;
        assert picked[q] == log[k];
      }
      if k :| 0 <= k < |picked| && Clears(picked[k], domain) {
        assert Clears(log[a[k]], domain);
      }
    }
  }

  // Any order in which the offsets settle gives what the log gives once in order.
  lemma SettledConverges(ps: Profiles, log: Log, a: seq<nat>)
    requires Below(a, |log|) && Settled(a, |log|)
    ensures Fold(ps, Picked(log, a)) == Fold(ps, log)
  {
    forall u ensures Lookup(Fold(ps, Picked(log, a)), u) == Lookup(Fold(ps, log), u) {
      if NeverResets(log, u) {
        SettledWithoutReset(log, a, u);
        NoResetFilters(ps, log, u);
        NoResetFilters(ps, Picked(log, a), u);
      } else {
        var i := LastReset(log, u);
        var p := LastOccurrence(a, i);
        SettledTail(log, a, u, i, p);
        AfterReset(ps, log, u, i);
        AfterReset(ps, Picked(log, a), u, p);
      }
    }
    SameProfiles(Fold(ps, Picked(log, a)), Fold(ps, log));
  }

  // A log of m offsets that provisions a user at one of them and deletes the user at another.
  function Probe(m: nat, on: nat, off: nat): Log {
    seq(m, k requires 0 <= k < m =>
      if k == on then Some(LdapEvent(UserProvisioned, "u", "", "", "", ""))
      else if k == off then Some(LdapEvent(UserDeleted, "u", "", "", "", ""))
      else None)
  }

  // An offset that is missing shows in a log that provisions a user there.
  lemma MissingShows(a: seq<nat>, m: nat, k: nat)
    requires Below(a, m) && k < m && k !in a
    ensures Fold(map[], Picked(Probe(m, k, m), a)) != Fold(map[], Probe(m, k, m))
  {
    var log := Probe(m, k, m);
    AfterReset(map[], log, "u", k);
    forall p | 0 <= p < |a| ensures !Resets(Picked(log, a)[p], "u") { assert a[p] in a; }
    NoResetFilters(map[], Picked(log, a), "u");
    assert !ClearsSomewhere(log[k + 1..], "");
  }

  // An offset after which a later one does not come again shows in a log that deletes a user at
  // the later one and provisions the user at the earlier one.
  lemma DisorderShows(a: seq<nat>, m: nat, p: nat, j: nat)
    requires Below(a, m) && p < |a| && a[p] < j < m && !Again(a, p, j)
    ensures Fold(map[], Picked(Probe(m, a[p], j), a)) != Fold(map[], Probe(m, a[p], j))
  {
    var log := Probe(m, a[p], j);
    var picked := Picked(log, a);
    AfterReset(map[], log, "u", j);
    var last := LastOccurrence(a, a[p]);
    var rest := picked[last + 1..];
    forall k | 0 <= k < |rest| ensures rest[k] == None {
      assert a[last + 1 + k] == j ==> Again(a, p, j);
      assert a[last + 1 + k] != a[p];
    }
    AfterReset(map[], picked, "u", last);
  }

  // The directory after handling these offsets is the exactly-once one, whatever the log says.
  ghost predicate Converges(a: seq<nat>, m: nat)
    requires Below(a, m)
  {
    forall log: Log, ps: Profiles | |log| == m :: Fold(ps, Picked(log, a)) == Fold(ps, log)
  }

  lemma ConvergesIffSettled(a: seq<nat>, m: nat)
    requires Below(a, m)
    ensures Converges(a, m) <==> Settled(a, m)
  {
    if Settled(a, m) {
      forall log: Log, ps: Profiles | |log| == m ensures Fold(ps, Picked(log, a)) == Fold(ps, log) {
        SettledConverges(ps, log, a);
      }
    } else {
      var log := UnsettledShows(a, m);
    }
  }

  lemma UnsettledShows(a: seq<nat>, m: nat) returns (log: Log)
    requires Below(a, m) && !Settled(a, m)
    ensures |log| == m && Fold(map[], Picked(log, a)) != Fold(map[], log)
  {
    if k: nat :| k < m && k !in a {
      MissingShows(a, m, k);
      log := Probe(m, k, m);
    } else {
      var p: nat, j: nat :| p < |a| && a[p] < j < m && !Again(a, p, j);
      DisorderShows(a, m, p, j);
      log := Probe(m, a[p], j);
    }
  }

  function Offsets(lo: nat, hi: nat): seq<nat>
    requires lo <= hi
  {
    seq(hi - lo, k requires 0 <= k < hi - lo => lo + k)
  }

  lemma OffsetsPick(log: Log, lo: nat, hi: nat)
    requires lo <= hi <= |log|
    ensures Below(Offsets(lo, hi), |log|) && Picked(log, Offsets(lo, hi)) == log[lo..hi]
  {
  }

  lemma PickedConcat(log: Log, a: seq<nat>, b: seq<nat>)
    requires Below(a, |log|) && Below(b, |log|)
    ensures Below(a + b, |log|) && Picked(log, a + b) == Picked(log, a) + Picked(log, b)
  {
  }

  // What has settled below `mid` settles below `hi` when the offsets in between follow.
  lemma SettlesOn(a: seq<nat>, mid: nat, hi: nat)
    requires mid <= hi && Settled(a, mid)
    ensures Settled(a + Offsets(mid, hi), hi)
  {
    var b := a + Offsets(mid, hi);
    forall k: nat | k < hi ensures k in b {
      if k >= mid { assert b[|a| + k - mid] == k; }
    }
    forall p: nat, j: nat | p < |b| && b[p] < j < hi ensures Again(b, p, j) {
      if j >= mid {
        assert b[|a| + j - mid] == j;
        if p >= |a| { assert b[p] == mid + (p - |a|); }
      } else {
        assert p < |a|;
        assert Again(a, p, j);
        var q :| p < q < |a| && a[q] == j;
        assert b[q] == j;
      }
    }
  }

  // In particular an event applied ahead of a log that contains it is absorbed by it.
  lemma EarlyEventIsAbsorbed(ps: Profiles, log: Log, i: nat)
    requires i < |log|
    ensures Fold(Apply(ps, log[i]), log) == Fold(ps, log)
  {
    var a: seq<nat>, n := [i], |log|;
    SettlesOn(a, 0, n);
    SettledConverges(ps, log, a + Offsets(0, n));
    OffsetsPick(log, 0, n);
    PickedConcat(log, a, Offsets(0, n));
    assert log[0..n] == log && Picked(log, a) == [log[i]];
    FoldConcat(ps, [log[i]], log);
    assert [log[i]][..0] == [];
    assert Fold(ps, [log[i]]) == Apply(ps, log[i]);
  }

  // ------------------------------------------------------------------ runs

  // Deliver handles the message at the current position, if there is one; Rewind is a restart that
  // resumes from some earlier position; Photo is an upload by a user of the service.
  datatype Step =
    | Deliver(storeUp: bool, now: int)
    | Rewind(offset: nat)
    | Photo(userId: string, domain: string, photo: string, now: int)

  // furthest: how far delivery has ever come. handled: the offsets handled without a store error,
  // in order. frontier: every event from there up to the current position has been handled, in
  // order and without a store error, since the position was there.
  datatype State = State(dir: Directory, position: nat, furthest: nat, frontier: nat, handled: seq<nat>)

  function Start(dir: Directory): State {
    State(dir, 0, 0, 0, [])
  }

  function Next(log: Log, s: State, step: Step): State {
    match step
    case Deliver(storeUp, now) =>
      if s.position >= |log| then s
      else
        State(Handled(s.dir, log[s.position], storeUp, now), s.position + 1, Max(s.furthest, s.position + 1),
              if storeUp && s.frontier == s.position then s.position + 1 else s.frontier,
              if storeUp then s.handled + [s.position] else s.handled)
    case Rewind(offset) =>
      var to := Min(offset, s.position);
      s.(position := to, frontier := Min(s.frontier, to))
    case Photo(u, domain, photo, now) => s.(dir := PhotoUpdated(s.dir, u, domain, photo, now))
  }

  function Exec(log: Log, s: State, steps: seq<Step>): State {
    if steps == [] then s else Next(log, Exec(log, s, steps[..|steps| - 1]), steps[|steps| - 1])
  }

  lemma HandledProfiles(dir: Directory, entry: Option<LdapEvent>, storeUp: bool, now: int)
    ensures ProfilesOf(Handled(dir, entry, storeUp, now)) == if storeUp then Apply(ProfilesOf(dir), entry) else ProfilesOf(dir)
  {
  }

  lemma PhotoKeepsProfiles(dir: Directory, userId: string, domain: string, photo: string, now: int)
    ensures ProfilesOf(PhotoUpdated(dir, userId, domain, photo, now)) == ProfilesOf(dir)
  {
  }

  ghost predicate Tracks(log: Log, init: Profiles, s: State) {
    && s.frontier <= s.position <= s.furthest <= |log|
    && Below(s.handled, s.furthest)
    && ProfilesOf(s.dir) == Fold(init, Picked(log, s.handled))
    && Settled(s.handled, s.frontier)
  }

  lemma PickedAppend(log: Log, a: seq<nat>, x: nat, init: Profiles)
    requires Below(a, |log|) && x < |log|
    ensures Below(a + [x], |log|)
    ensures Fold(init, Picked(log, a + [x])) == Apply(Fold(init, Picked(log, a)), log[x])
  {
    var picked := Picked(log, a + [x]);
    assert picked[..|a|] == Picked(log, a) && picked[|a|] == log[x];
  }

  // Handling an offset at or beyond the settled part keeps it settled, and extends it if it is next.
  lemma SettledAppend(a: seq<nat>, m: nat, x: nat)
    requires Settled(a, m) && m <= x
    ensures Settled(a + [x], if x == m then m + 1 else m)
  {
    var b, m' := a + [x], if x == m then m + 1 else m;
    forall k: nat | k < m' ensures k in b {
      if k == x { assert b[|a|] == x; }
    }
    forall p: nat, j: nat | p < |b| && b[p] < j < m' ensures Again(b, p, j) {
      assert p < |a|;
      if j == x {
        assert b[|a|] == x;
      } else {
        assert Again(a, p, j);
        var q :| p < q < |a| && a[q] == j;
        assert b[q] == j;
      }
    }
  }

  lemma StepTracks(log: Log, init: Profiles, s: State, step: Step)
    requires Tracks(log, init, s)
    ensures Tracks(log, init, Next(log, s, step))
  {
    match step
    case Deliver(storeUp, now) =>
      if s.position < |log| {
        HandledProfiles(s.dir, log[s.position], storeUp, now);
        PickedAppend(log, s.handled, s.position, init);
        SettledAppend(s.handled, s.frontier, s.position);
      }
    case Rewind(_) =>
    case Photo(u, domain, photo, now) => PhotoKeepsProfiles(s.dir, u, domain, photo, now);
  }

  // The handled offsets are all that matters of a run.
  lemma {:induction false} RunTracks(log: Log, dir: Directory, steps: seq<Step>)
    ensures Tracks(log, ProfilesOf(dir), Exec(log, Start(dir), steps))
  {
    if steps != [] {
      RunTracks(log, dir, steps[..|steps| - 1]);
      StepTracks(log, ProfilesOf(dir), Exec(log, Start(dir), steps[..|steps| - 1]), steps[|steps| - 1]);
    }
  }

  // Which offsets are handled depends on the steps, not on what the log says.
  lemma {:induction false} SameOffsets(log: Log, dir: Directory, log': Log, dir': Directory, steps: seq<Step>)
    requires |log| == |log'|
    ensures var s, t := Exec(log, Start(dir), steps), Exec(log', Start(dir'), steps);
            s.position == t.position && s.furthest == t.furthest && s.handled == t.handled
  {
    if steps != [] {
      SameOffsets(log, dir, log', dir', steps[..|steps| - 1]);
    }
  }

  ghost predicate ExactlyOnce(log: Log, dir: Directory, steps: seq<Step>) {
    var t := Exec(log, Start(dir), steps);
    t.furthest <= |log| && ProfilesOf(t.dir) == Fold(ProfilesOf(dir), log[..t.furthest])
  }

  lemma ExactlyOnceIf(log: Log, dir: Directory, steps: seq<Step>)
    requires var t := Exec(log, Start(dir), steps); Settled(t.handled, t.furthest)
    ensures ExactlyOnce(log, dir, steps)
  {
    var t := Exec(log, Start(dir), steps);
    RunTracks(log, dir, steps);
    var seen := log[..t.furthest];
    assert Picked(seen, t.handled) == Picked(log, t.handled);
    SettledConverges(ProfilesOf(dir), seen, t.handled);
  }

  // Main result: for any rewinds, store errors and photo uploads, the profiles end as the
  // exactly-once fold on every log of this length exactly when the offsets handled without error
  // have settled: none below the furthest point is missing, and their last handlings are in order.
  lemma Convergence(log: Log, dir: Directory, steps: seq<Step>)
    ensures var t := Exec(log, Start(dir), steps);
            (forall log', dir' | |log'| == |log| :: ExactlyOnce(log', dir', steps)) <==> Settled(t.handled, t.furthest)
  {
    var t := Exec(log, Start(dir), steps);
    if Settled(t.handled, t.furthest) {
      forall log', dir' | |log'| == |log| ensures ExactlyOnce(log', dir', steps) {
        SameOffsets(log, dir, log', dir', steps);
        ExactlyOnceIf(log', dir', steps);
      }
    } else {
      RunTracks(log, dir, steps);
      var probe := UnsettledShows(t.handled, t.furthest);
      var log' := probe + log[t.furthest..];
      SameOffsets(log, dir, log', map[], steps);
      RunTracks(log', map[], steps);
      assert log'[..t.furthest] == probe && ProfilesOf(map[]) == map[];
      assert Picked(log', t.handled) == Picked(probe, t.handled);
      assert !ExactlyOnce(log', map[], steps);
    }
  }

  // So a store error that is never made good loses an event, whatever else happens.
  lemma StoreErrorLosesEvent(log: Log, dir: Directory, steps: seq<Step>, k: nat)
    requires var t := Exec(log, Start(dir), steps); k < t.furthest && k !in t.handled
    ensures exists log', dir' :: |log'| == |log| && !ExactlyOnce(log', dir', steps)
  {
    Convergence(log, dir, steps);
  }

  // The events from the frontier on always lead to the exactly-once state.
  lemma RestLeadsToExactlyOnce(log: Log, dir: Directory, steps: seq<Step>)
    ensures var t := Exec(log, Start(dir), steps);
            t.frontier <= t.furthest <= |log| &&
            Fold(ProfilesOf(t.dir), log[t.frontier..t.furthest]) == Fold(ProfilesOf(dir), log[..t.furthest])
  {
    var t := Exec(log, Start(dir), steps);
    RunTracks(log, dir, steps);
    var rest, seen := Offsets(t.frontier, t.furthest), log[..t.furthest];
    SettlesOn(t.handled, t.frontier, t.furthest);
    SettledConverges(ProfilesOf(dir), seen, t.handled + rest);
    PickedConcat(seen, t.handled, rest);
    OffsetsPick(seen, t.frontier, t.furthest);
    assert Picked(seen, t.handled) == Picked(log, t.handled);
    assert seen[t.frontier..t.furthest] == log[t.frontier..t.furthest];
    FoldConcat(ProfilesOf(dir), Picked(seen, t.handled), log[t.frontier..t.furthest]);
  }

  // Without store errors the frontier is the position, so delivery only has to catch up.
  lemma {:induction false} FrontierFollows(log: Log, dir: Directory, steps: seq<Step>)
    requires forall x | x in steps :: x.Deliver? ==> x.storeUp
    ensures var t := Exec(log, Start(dir), steps); t.frontier == t.position
  {
    if steps != [] {
      assert steps[|steps| - 1] in steps;
      forall x | x in steps[..|steps| - 1] ensures x.Deliver? ==> x.storeUp { assert x in steps; }
      FrontierFollows(log, dir, steps[..|steps| - 1]);
    }
  }

  lemma ConvergenceUnderRedelivery(log: Log, dir: Directory, steps: seq<Step>)
    requires forall x | x in steps :: x.Deliver? ==> x.storeUp
    requires var t := Exec(log, Start(dir), steps); t.position == t.furthest
    ensures ExactlyOnce(log, dir, steps)
  {
    FrontierFollows(log, dir, steps);
    RunTracks(log, dir, steps);
    ExactlyOnceIf(log, dir, steps);
  }

  // ------------------------------------------------------------------ photos

  // No event touches the photo of a user it leaves in the directory, and a new user has none.
  lemma EventsKeepPhotos(dir: Directory, e: LdapEvent, now: int, u: string)
    requires u in Applied(dir, e, now)
    ensures Applied(dir, e, now)[u].jpegPhoto == if u in dir then dir[u].jpegPhoto else None
    ensures Applied(dir, e, now)[u].lastSyncedAt == if e.action.UserProvisioned? && u == e.userId then now else dir[u].lastSyncedAt
  {
  }

  // The step handles a delete of the user or a clear of the domain the user has at that moment.
  predicate Drops(log: Log, s: State, step: Step, u: string) {
    && step.Deliver? && step.storeUp && s.position < |log| && log[s.position].Some?
    && var e := log[s.position].value;
       || (e.action.UserDeleted? && e.userId == u)
       || (e.action.ConfigChanged? && u in s.dir && s.dir[u].domain == e.domain)
  }

  predicate Photographed(dir: Directory, u: string, photo: Option<string>) {
    u in dir && dir[u].jpegPhoto == photo
  }

  lemma DropDecides(log: Log, s: State, step: Step, u: string, photo: Option<string>)
    requires !(step.Photo? && step.userId == u)
    ensures Drops(log, s, step, u) ==> u !in Next(log, s, step).dir
    ensures !Drops(log, s, step, u) && Photographed(s.dir, u, photo) ==> Photographed(Next(log, s, step).dir, u, photo)
    ensures u in Next(log, s, step).dir && (u in s.dir ==> s.dir[u].jpegPhoto == None) ==> Next(log, s, step).dir[u].jpegPhoto == None
  {
  }

  predicate DropsAt(log: Log, s: State, steps: seq<Step>, i: nat, u: string)
    requires i < |steps|
  {
    Drops(log, Exec(log, s, steps[..i]), steps[i], u)
  }

  // An upload sets the photo of the user if the domain is right, and nothing else.
  lemma UploadIs(dir: Directory, userId: string, domain: string, photo: string, now: int, u: string)
    ensures u in PhotoUpdated(dir, userId, domain, photo, now) <==> u in dir
    ensures u in dir ==>
              PhotoUpdated(dir, userId, domain, photo, now)[u] ==
                if u == userId && dir[u].domain == domain then dir[u].(jpegPhoto := Some(photo), lastSyncedAt := now) else dir[u]
  {
  }

  ghost predicate Dropped(log: Log, s: State, steps: seq<Step>, u: string) {
    exists i: nat | i < |steps| :: DropsAt(log, s, steps, i, u)
  }

  lemma DropsAtPrefix(log: Log, s: State, steps: seq<Step>, i: nat, u: string)
    requires i < |steps| - 1
    ensures DropsAt(log, s, steps[..|steps| - 1], i, u) == DropsAt(log, s, steps, i, u)
  {
    assert steps[..|steps| - 1][..i] == steps[..i];
  }

  lemma DroppedStep(log: Log, s: State, steps: seq<Step>, u: string)
    requires steps != []
    ensures var before := steps[..|steps| - 1];
            Dropped(log, s, steps, u) <==> Dropped(log, s, before, u) || DropsAt(log, s, steps, |steps| - 1, u)
  {
    var before := steps[..|steps| - 1];
    if i: nat :| i < |before| && DropsAt(log, s, before, i, u) {
      DropsAtPrefix(log, s, steps, i, u);
    }
    if i: nat :| i < |before| && DropsAt(log, s, steps, i, u) {
      DropsAtPrefix(log, s, steps, i, u);
    }
  }

  // Photos are not in the log. Main result: a photo survives a run without another upload for its
  // user exactly when no step handles a delete of the user or a clear of the user's domain.
  lemma {:induction false} PhotoSurvivesIff(log: Log, s: State, steps: seq<Step>, u: string)
    requires u in s.dir && s.dir[u].jpegPhoto.Some?
    requires forall x | x in steps :: !(x.Photo? && x.userId == u)
    ensures var t := Exec(log, s, steps).dir;
            && (Photographed(t, u, s.dir[u].jpegPhoto) <==> !Dropped(log, s, steps, u))
            && (Dropped(log, s, steps, u) && u in t ==> t[u].jpegPhoto == None)
    decreases |steps|
  {
    if steps != [] {
      var before, last := steps[..|steps| - 1], steps[|steps| - 1];
      forall x | x in before ensures !(x.Photo? && x.userId == u) { assert x in steps; }
      assert last in steps;
      PhotoSurvivesIff(log, s, before, u);
      DroppedStep(log, s, steps, u);
      DropDecides(log, Exec(log, s, before), last, u, s.dir[u].jpegPhoto);
    }
  }

  // So after an upload in the right domain the photo is the uploaded one exactly until such a step.
  lemma UploadedPhotoIff(log: Log, s: State, u: string, photo: string, now: int, steps: seq<Step>)
    requires u in s.dir && forall x | x in steps :: !(x.Photo? && x.userId == u)
    ensures var uploaded := Next(log, s, Photo(u, s.dir[u].domain, photo, now));
            Photographed(Exec(log, uploaded, steps).dir, u, Some(photo)) <==> !Dropped(log, uploaded, steps, u)
  {
    UploadIs(s.dir, u, s.dir[u].domain, photo, now, u);
    PhotoSurvivesIff(log, Next(log, s, Photo(u, s.dir[u].domain, photo, now)), steps, u);
  }

  // A restart at i and n messages delivered again.
  function Redelivery(i: nat, n: nat, now: int): seq<Step> {
    if n == 0 then [Rewind(i)] else Redelivery(i, n - 1, now) + [Deliver(true, now)]
  }

  predicate DeletesUser(entry: Option<LdapEvent>, u: string) {
    entry.Some? && entry.value.action.UserDeleted? && entry.value.userId == u
  }

  lemma {:induction false} RedeliveryReaches(log: Log, s: State, i: nat, n: nat, now: int)
    requires i <= s.position && i + n <= |log|
    ensures Exec(log, s, Redelivery(i, n, now)).position == i + n
    decreases n
  {
    var steps := Redelivery(i, n, now);
    if n == 0 {
      assert steps[..0] == [];
    } else {
      RedeliveryReaches(log, s, i, n - 1, now);
      assert steps[..|steps| - 1] == Redelivery(i, n - 1, now);
    }
  }

  lemma {:induction false} RedeliveryUploadsNothing(i: nat, n: nat, now: int)
    ensures forall x | x in Redelivery(i, n, now) :: !x.Photo?
  {
    if n > 0 { RedeliveryUploadsNothing(i, n - 1, now); }
  }

  lemma {:induction false} RedeliveredDelete(log: Log, s: State, u: string, i: nat, n: nat, now: int, k: nat)
    requires i <= s.position && i <= k < i + n <= |log| && DeletesUser(log[k], u)
    ensures Dropped(log, s, Redelivery(i, n, now), u)
    decreases n
  {
    var steps := Redelivery(i, n, now);
    var before := Redelivery(i, n - 1, now);
    assert steps[..|steps| - 1] == before;
    DroppedStep(log, s, steps, u);
    if k < i + n - 1 {
      RedeliveredDelete(log, s, u, i, n - 1, now, k);
    } else {
      RedeliveryReaches(log, s, i, n - 1, now);
      assert Exec(log, s, before).position == k;
      assert DropsAt(log, s, steps, |steps| - 1, u);
    }
  }

  // Redelivering an old delete drops a photo uploaded since, although the profile comes back.
  lemma RedeliveryDropsPhoto(log: Log, s: State, u: string, i: nat, n: nat, now: int, k: nat)
    requires u in s.dir && s.dir[u].jpegPhoto.Some?
    requires i <= s.position && i <= k < i + n <= |log| && DeletesUser(log[k], u)
    ensures var t := Exec(log, s, Redelivery(i, n, now)).dir; u in t ==> t[u].jpegPhoto == None
  {
    RedeliveredDelete(log, s, u, i, n, now, k);
    RedeliveryUploadsNothing(i, n, now);
    PhotoSurvivesIff(log, s, Redelivery(i, n, now), u);
  }
}
