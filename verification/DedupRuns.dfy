// RemoveDuplicates statement by statement, while other clients write the same table.
module DedupRuns {
  import opened Wrappers
  import opened PasswordKey
  import opened PasswordStore
  import opened PasswordDedup

  // What is left to do for one group: the greatest id, and the ids to compare with it.
  datatype Job = Job(kept: int, copies: seq<int>)

  // kept: the password of the first job's kept row, once read. doomed: the first copy has been read
  // and holds that password, so its delete comes next.
  datatype State = State(rows: Rows, jobs: seq<Job>, kept: Option<string>, doomed: bool)

  // One statement of the run, which the database may fail to answer, or anything another client does.
  datatype Step = Statement(up: bool) | Other(rows: Rows)

  function NextCopy(s: State): State
    requires s.jobs != [] && s.jobs[0].copies != []
  {
    var job := s.jobs[0];
    if |job.copies| == 1 then s.(jobs := s.jobs[1..], kept := None, doomed := false)
    else s.(jobs := [job.(copies := job.copies[1..])] + s.jobs[1..], doomed := false)
  }

  // A failed or empty read skips the job or the copy; a failed delete goes on as well.
  function Next(s: State, step: Step, vault: Vault, userID: string): State {
    if step.Other? then s.(rows := step.rows)
    else if s.jobs == [] then s
    else
      var job := s.jobs[0];
      if s.kept.None? then
        if step.up && job.kept in s.rows && job.copies != [] then s.(kept := Some(vault.Plain(s.rows[job.kept].password)))
        else s.(jobs := s.jobs[1..])
      else if job.copies == [] then s.(jobs := s.jobs[1..], kept := None)
      else
        var id := job.copies[0];
        if s.doomed then
          NextCopy(if step.up && id in s.rows && s.rows[id].userID == userID then s.(rows := s.rows - {id}) else s)
        else if step.up && id in s.rows && vault.Plain(s.rows[id].password) == s.kept.value then s.(doomed := true)
        else NextCopy(s)
  }

  function Exec(s: State, steps: seq<Step>, vault: Vault, userID: string): State {
    if steps == [] then s else Next(Exec(s, steps[..|steps| - 1], vault, userID), steps[|steps| - 1], vault, userID)
  }

  // ------------------------------------------------------------------ where a run starts

  function JobFor(g: DuplicateGroup): Job
    requires g.ids != []
  {
    SortKeepsSize(g.ids);
    var sorted := SortDescending(g.ids);
    Job(sorted[0], sorted[1..])
  }

  function JobsOf(groups: seq<DuplicateGroup>): seq<Job>
    requires forall i | 0 <= i < |groups| :: groups[i].ids != []
  {
    seq(|groups|, i requires 0 <= i < |groups| => JobFor(groups[i]))
  }

  lemma {:induction false} SortKeepsSize(ids: seq<int>)
    ensures |SortDescending(ids)| == |ids|
  {
    if ids != [] {
      SortKeepsSize(ids[1..]);
      InsertKeepsSize(ids[0], SortDescending(ids[1..]));
    }
  }

  lemma {:induction false} InsertKeepsSize(x: int, ids: seq<int>)
    ensures |InsertDescending(x, ids)| == |ids| + 1
  {
    if ids != [] && x <= ids[0] { InsertKeepsSize(x, ids[1..]); }
  }

  // ------------------------------------------------------------------ what a statement can lose

  function EntryOf(rows: Rows, vault: Vault, id: int): Entry
    requires id in rows
  {
    Entry(rows[id].userID, rows[id].Key(), vault.Plain(rows[id].password))
  }

  lemma RemovalKeepsEntriesIff(rows: Rows, id: int, vault: Vault)
    requires id in rows
    ensures Entries(rows - {id}, vault) == Entries(rows, vault) <==>
            exists other :: other in rows && other != id && EntryOf(rows, vault, other) == EntryOf(rows, vault, id)
    ensures Entries(rows - {id}, vault) <= Entries(rows, vault) <= Entries(rows - {id}, vault) + {EntryOf(rows, vault, id)}
  {
    var left := rows - {id};
    forall e ensures e in Entries(rows, vault) <==> e in Entries(left, vault) || e == EntryOf(rows, vault, id) {
      if x :| x in rows && e == EntryOf(rows, vault, x) {
        assert x in left ==> e == EntryOf(left, vault, x);
      }
    }
    if other :| other in rows && other != id && EntryOf(rows, vault, other) == EntryOf(rows, vault, id) {
      assert EntryOf(left, vault, other) == EntryOf(rows, vault, id);
    }
    if Entries(left, vault) == Entries(rows, vault) {
      assert EntryOf(rows, vault, id) in Entries(left, vault);
      var other :| other in left && EntryOf(rows, vault, id) == Entry(left[other].userID, left[other].Key(), vault.Plain(left[other].password));
      assert EntryOf(rows, vault, other) == EntryOf(rows, vault, id);
    }
  }

  // The next statement is the delete of a row of the user, and it will be answered.
  predicate Deletes(s: State, step: Step, userID: string) {
    && step.Statement? && step.up
    && s.jobs != [] && s.jobs[0].copies != [] && s.kept.Some? && s.doomed
    && s.jobs[0].copies[0] in s.rows && s.rows[s.jobs[0].copies[0]].userID == userID
  }

  lemma OnlyDeletesChangeRows(s: State, step: Step, vault: Vault, userID: string)
    requires step.Statement?
    ensures Next(s, step, vault, userID).rows == if Deletes(s, step, userID) then s.rows - {s.jobs[0].copies[0]} else s.rows
  {
  }

  // ------------------------------------------------------------------ what other clients must leave alone

  // From its read to the end of its job, the kept row stays and reads the same.
  predicate KeptStays(s: State, rows: Rows, vault: Vault) {
    s.jobs != [] && s.kept.Some? ==>
      s.jobs[0].kept in rows && vault.Plain(rows[s.jobs[0].kept].password) == s.kept.value
  }

  // From its read to its delete, a copy reads the same, if it stays.
  predicate CopyStays(s: State, rows: Rows, vault: Vault) {
    s.jobs != [] && s.jobs[0].copies != [] && s.kept.Some? && s.doomed && s.jobs[0].copies[0] in rows ==>
      vault.Plain(rows[s.jobs[0].copies[0]].password) == s.kept.value
  }

  // From the analysis on, the rows still to be compared have the owner and the key of their kept row.
  ghost predicate InGroup(rows: Rows, job: Job) {
    job.kept in rows ==> forall id | id in job.copies && id in rows :: SameGroup(rows[id], rows[job.kept])
  }

  ghost predicate GroupsStay(s: State, rows: Rows) {
    forall i | 0 <= i < |s.jobs| :: InGroup(rows, s.jobs[i])
  }

  ghost predicate Quiet(s: State, step: Step, vault: Vault) {
    step.Other? ==> KeptStays(s, step.rows, vault) && CopyStays(s, step.rows, vault) && GroupsStay(s, step.rows)
  }

  // The copies of one job are not what another one keeps.
  predicate Apart(jobs: seq<Job>) {
    forall i, j | 0 <= i < |jobs| && 0 <= j < |jobs| :: jobs[i].kept !in jobs[j].copies
  }

  ghost predicate Sound(s: State, vault: Vault) {
    && Apart(s.jobs)
    && (s.kept.Some? ==> s.jobs != [])
    && (s.doomed ==> s.kept.Some? && s.jobs[0].copies != [])
    && KeptStays(s, s.rows, vault) && CopyStays(s, s.rows, vault) && GroupsStay(s, s.rows)
  }

  lemma SoundStatementIsHarmless(s: State, step: Step, vault: Vault, userID: string)
    requires Sound(s, vault) && step.Statement?
    ensures Entries(Next(s, step, vault, userID).rows, vault) == Entries(s.rows, vault)
  {
    OnlyDeletesChangeRows(s, step, vault, userID);
    if Deletes(s, step, userID) {
      var job := s.jobs[0];
      RemovalKeepsEntriesIff(s.rows, job.copies[0], vault);
      assert InGroup(s.rows, job) && job.copies[0] in job.copies;
      assert EntryOf(s.rows, vault, job.kept) == EntryOf(s.rows, vault, job.copies[0]);
    }
  }

  // Every job left is one of these, or one of these with fewer copies.
  ghost predicate Narrows(after: seq<Job>, jobs: seq<Job>) {
    forall i | 0 <= i < |after| ::
      exists j :: 0 <= j < |jobs| && after[i].kept == jobs[j].kept && forall id | id in after[i].copies :: id in jobs[j].copies
  }

  lemma StatementNarrows(s: State, step: Step, vault: Vault, userID: string)
    requires step.Statement?
    ensures Narrows(Next(s, step, vault, userID).jobs, s.jobs)
    ensures Apart(s.jobs) ==> Apart(Next(s, step, vault, userID).jobs)
  {
    var after := Next(s, step, vault, userID).jobs;
    forall i | 0 <= i < |after|
      ensures exists j :: 0 <= j < |s.jobs| && after[i].kept == s.jobs[j].kept && forall id | id in after[i].copies :: id in s.jobs[j].copies
    {
      if after == s.jobs[1..] {
        assert after[i] == s.jobs[i + 1];
      } else {
        assert after[i].kept == s.jobs[i].kept;
        assert i > 0 ==> after[i] == s.jobs[i];
      }
    }
  }

  lemma StatementKeepsGroups(s: State, step: Step, vault: Vault, userID: string)
    requires GroupsStay(s, s.rows) && step.Statement?
    ensures var t := Next(s, step, vault, userID); GroupsStay(t, t.rows)
  {
    var t := Next(s, step, vault, userID);
    StatementNarrows(s, step, vault, userID);
    OnlyDeletesChangeRows(s, step, vault, userID);
    forall i | 0 <= i < |t.jobs| ensures InGroup(t.rows, t.jobs[i]) {
      var j :| 0 <= j < |s.jobs| && t.jobs[i].kept == s.jobs[j].kept && forall id | id in t.jobs[i].copies :: id in s.jobs[j].copies;
      assert InGroup(s.rows, s.jobs[j]);
    }
  }

  lemma StatementIsSound(s: State, step: Step, vault: Vault, userID: string)
    requires Sound(s, vault) && step.Statement?
    ensures Sound(Next(s, step, vault, userID), vault)
  {
    StatementNarrows(s, step, vault, userID);
    StatementKeepsGroups(s, step, vault, userID);
    OnlyDeletesChangeRows(s, step, vault, userID);
  }

  ghost predicate QuietRun(s: State, steps: seq<Step>, vault: Vault, userID: string) {
    forall i | 0 <= i < |steps| :: Quiet(Exec(s, steps[..i], vault, userID), steps[i], vault)
  }

  lemma {:induction false} QuietRunIsSound(s: State, steps: seq<Step>, vault: Vault, userID: string)
    requires Sound(s, vault) && QuietRun(s, steps, vault, userID)
    ensures Sound(Exec(s, steps, vault, userID), vault)
    decreases |steps|
  {
    if steps != [] {
      var n := |steps| - 1;
      forall i | 0 <= i < n ensures Quiet(Exec(s, steps[..n][..i], vault, userID), steps[..n][i], vault) {
        assert steps[..n][..i] == steps[..i];
      }
      QuietRunIsSound(s, steps[..n], vault, userID);
      var t := Exec(s, steps[..n], vault, userID);
      assert Quiet(t, steps[n], vault);
      if steps[n].Statement? { StatementIsSound(t, steps[n], vault, userID); }
    }
  }

  // ------------------------------------------------------------------ the start of a run

  ghost predicate Starts(s: State, rows: Rows, userID: string) {
    exists pws, result ::
      && Listing(rows, userID, pws) && Analyzes(pws, result)
      && (forall i | 0 <= i < |result.groups| :: result.groups[i].ids != [])
      && s == State(rows, JobsOf(result.groups), None, false)
  }

  // A job as the analysis makes it.
  ghost predicate Planned(rows: Rows, userID: string, job: Job) {
    && IsGreatest(rows, job.kept) && rows[job.kept].userID == userID
    && (forall id | id in job.copies :: id in rows && id < job.kept && SameGroup(rows[id], rows[job.kept]))
    && (forall id | id in rows && SameGroup(rows[id], rows[job.kept]) && id != job.kept :: id in job.copies)
  }

  lemma JobIsPlanned(rows: Rows, userID: string, key: string, g: DuplicateGroup)
    requires Ascending(g.ids) && g.ids != [] && AreGroup(rows, userID, key, g.ids)
    ensures Planned(rows, userID, JobFor(g)) && rows[JobFor(g).kept].Key() == key
  {
    var job, sorted := JobFor(g), SortDescending(g.ids);
    SortDescendingSorts(g.ids);
    GreatestOfGroup(rows, userID, key, sorted);
    assert sorted == [sorted[0]] + sorted[1..];
    assert job.kept in sorted;
    forall id | id in job.copies ensures id < job.kept && id in sorted {
      var k :| 0 <= k < |sorted[1..]| && sorted[1..][k] == id;
      assert sorted[k + 1] == id;
    }
  }

  lemma JobsArePlanned(s: State, rows: Rows, userID: string)
    requires IdsMatch(rows) && Starts(s, rows, userID)
    ensures forall i | 0 <= i < |s.jobs| :: Planned(rows, userID, s.jobs[i])
    ensures s.rows == rows && s.kept == None && !s.doomed
  {
    var pws, result :| Listing(rows, userID, pws) && Analyzes(pws, result)
      && (forall i | 0 <= i < |result.groups| :: result.groups[i].ids != [])
      && s == State(rows, JobsOf(result.groups), None, false);
    var keys := Repeated(pws, KeysInOrder(pws));
    forall i | 0 <= i < |s.jobs| ensures Planned(rows, userID, s.jobs[i]) {
      GroupIsReady(rows, rows, userID, pws, result, i, keys);
      JobIsPlanned(rows, userID, keys[i], result.groups[i]);
    }
  }

  lemma RedundantIsInJob(rows: Rows, userID: string, vault: Vault, id: int, job: Job)
    requires Planned(rows, userID, job) && Redundant(rows, vault, id) && SameGroup(rows[id], rows[job.kept])
    ensures id in job.copies
  {
    var kept :| RedundantTo(rows, vault, id, kept);
    GreatestIsUnique(rows, kept, job.kept);
  }

  // Every redundant row of the user is a copy of some job.
  lemma RedundantIsPlanned(s: State, rows: Rows, userID: string, vault: Vault, id: int)
    requires IdsMatch(rows) && Starts(s, rows, userID) && Redundant(rows, vault, id) && rows[id].userID == userID
    ensures exists i :: 0 <= i < |s.jobs| && id in s.jobs[i].copies
  {
    var pws, result :| Listing(rows, userID, pws) && Analyzes(pws, result)
      && (forall i | 0 <= i < |result.groups| :: result.groups[i].ids != [])
      && s == State(rows, JobsOf(result.groups), None, false);
    var keys := Repeated(pws, KeysInOrder(pws));
    AllRedundantAreRepeated(rows, vault, userID, pws);
    var i :| 0 <= i < |keys| && keys[i] == rows[id].Key();
    GroupIsReady(rows, rows, userID, pws, result, i, keys);
    JobIsPlanned(rows, userID, keys[i], result.groups[i]);
    RedundantIsInJob(rows, userID, vault, id, s.jobs[i]);
  }

  lemma RunStartsSound(s: State, rows: Rows, userID: string, vault: Vault)
    requires IdsMatch(rows) && Starts(s, rows, userID)
    ensures Sound(s, vault)
  {
    JobsArePlanned(s, rows, userID);
    forall i, j | 0 <= i < |s.jobs| && 0 <= j < |s.jobs| ensures s.jobs[i].kept !in s.jobs[j].copies {
      assert Planned(rows, userID, s.jobs[i]) && Planned(rows, userID, s.jobs[j]);
    }
    forall i | 0 <= i < |s.jobs| ensures InGroup(rows, s.jobs[i]) {
      assert Planned(rows, userID, s.jobs[i]);
    }
  }

  // Main result: a run that starts from the analysis of the table loses no entry with any of its
  // statements, as long as other clients leave alone what it has read and the groups it works on.
  lemma QuietRunLosesNothing(start: State, rows: Rows, userID: string, vault: Vault, steps: seq<Step>, i: nat)
    requires IdsMatch(rows) && Starts(start, rows, userID)
    requires i < |steps| && steps[i].Statement? && QuietRun(start, steps[..i], vault, userID)
    ensures Entries(Exec(start, steps[..i + 1], vault, userID).rows, vault) == Entries(Exec(start, steps[..i], vault, userID).rows, vault)
  {
    RunStartsSound(start, rows, userID, vault);
    QuietRunIsSound(start, steps[..i], vault, userID);
    assert steps[..i + 1][..i] == steps[..i];
    SoundStatementIsHarmless(Exec(start, steps[..i], vault, userID), steps[i], vault, userID);
  }

  // ------------------------------------------------------------------ why each condition is needed

  // Two rows with one key are one group.
  lemma PairIsGrouped(p: Password, q: Password)
    requires p.Key() == q.Key()
    ensures KeysInOrder([p] + [q]) == [p.Key()]
    ensures GroupFor([p] + [q], p.Key()) == DuplicateGroup(p.name, p.website, p.username, 2, [p.id] + [q.id])
  {
    GroupNew([], p);
    assert [] + [p] == [p];
    GroupKnown([p], q, p.Key());
    assert ([p] + [q])[..1] == [p];
  }

  lemma PairIsAnalyzed(p: Password, q: Password)
    requires p.Key() == q.Key()
    ensures var g := DuplicateGroup(p.name, p.website, p.username, 2, [p.id] + [q.id]);
            Analyzes([p] + [q], DuplicateAnalysis([g], 1))
  {
    var pws, key := [p] + [q], p.Key();
    PairIsGrouped(p, q);
    OneRepeated(pws, key);
  }

  lemma OneRepeated(pws: seq<Password>, key: string)
    requires |IdsWith(pws, key)| == 2
    ensures Repeated(pws, [key]) == [key] && SurplusOf(pws, [key]) == 1
  {
    assert [key][..0] == [];
    assert Repeated(pws, []) == [] && SurplusOf(pws, []) == 0;
  }

  lemma PairIsSorted(g: DuplicateGroup)
    requires g.ids == [1, 2]
    ensures JobsOf([g]) == [Job(2, [1])]
  {
    assert [1, 2][1..] == [2] && [2][1..] == [];
    assert SortDescending([2]) == [2] && InsertDescending(1, [2]) == [2] + InsertDescending(1, []);
    assert SortDescending(g.ids) == [2, 1] && [2, 1][1..] == [1];
  }

  // The analysis of two rows with one key: row 2 is kept, row 1 is compared with it.
  lemma TwoRowsStart(userID: string, l: Labels, m: Labels, a: string, b: string) returns (start: State)
    requires l != m && GroupKey(l) == GroupKey(m)
    ensures var rows := TwoRows(userID, l, m, a, b);
            start == State(rows, [Job(2, [1])], None, false)
            && IdsMatch(rows) && UniqueLabels(rows) && Starts(start, rows, userID)
  {
    var rows := TwoRows(userID, l, m, a, b);
    TwoRowsAreUnique(userID, l, m, a, b);
    var p, q := rows[1], rows[2];
    PairIsAnalyzed(p, q);
    var g := DuplicateGroup(p.name, p.website, p.username, 2, [p.id] + [q.id]);
    PairIsSorted(g);
    assert ([p] + [q])[0] == p && ([p] + [q])[1] == q;
    assert Listing(rows, userID, [p] + [q]);
    start := State(rows, JobsOf(DuplicateAnalysis([g], 1).groups), None, false);
  }

  // Which of the three conditions a step of another client keeps.
  ghost predicate Keeps(s: State, rows: Rows, vault: Vault, kept: bool, copy: bool, groups: bool) {
    (kept <==> KeptStays(s, rows, vault)) && (copy <==> CopyStays(s, rows, vault)) && (groups <==> GroupsStay(s, rows))
  }

  // The next statement loses this entry.
  ghost predicate Loses(s: State, vault: Vault, userID: string, e: Entry) {
    e in Entries(s.rows, vault) && e !in Entries(Next(s, Statement(true), vault, userID).rows, vault)
  }

  lemma LoneCopyIsLost(s: State, vault: Vault, userID: string)
    requires Deletes(s, Statement(true), userID)
    requires forall id | id in s.rows && id != s.jobs[0].copies[0] ::
               EntryOf(s.rows, vault, id) != EntryOf(s.rows, vault, s.jobs[0].copies[0])
    ensures Loses(s, vault, userID, EntryOf(s.rows, vault, s.jobs[0].copies[0]))
  {
    OnlyDeletesChangeRows(s, Statement(true), vault, userID);
    var left, e := s.rows - {s.jobs[0].copies[0]}, EntryOf(s.rows, vault, s.jobs[0].copies[0]);
    forall id | id in left ensures Entry(left[id].userID, left[id].Key(), vault.Plain(left[id].password)) != e {
      assert EntryOf(s.rows, vault, id) != e;
    }
  }

  lemma ExecAppend(s: State, steps: seq<Step>, step: Step, vault: Vault, userID: string)
    ensures Exec(s, steps + [step], vault, userID) == Next(Exec(s, steps, vault, userID), step, vault, userID)
  {
    assert (steps + [step])[..|steps|] == steps;
  }

  const READ := Statement(true)

  // A run on rows 1 and 2 that has read both and found that they hold the same.
  ghost predicate HasRead(start: State, vault: Vault, userID: string, plain: string) {
    && start.jobs == [Job(2, [1])]
    && Exec(start, [READ] + [READ], vault, userID) == start.(kept := Some(plain), doomed := true)
  }

  lemma TwoReads(userID: string, l: Labels, m: Labels, password: string, vault: Vault) returns (start: State)
    requires l != m && GroupKey(l) == GroupKey(m)
    ensures var rows := TwoRows(userID, l, m, password, password);
            Starts(start, rows, userID) && UniqueLabels(rows) && HasRead(start, vault, userID, vault.Plain(password))
  {
    start := TwoRowsStart(userID, l, m, password, password);
    BothAreRead(start, vault, userID, vault.Plain(password));
  }

  lemma BothAreRead(start: State, vault: Vault, userID: string, plain: string)
    requires start.jobs == [Job(2, [1])] && start.kept == None && !start.doomed && start.rows.Keys == {1, 2}
    requires vault.Plain(start.rows[1].password) == plain == vault.Plain(start.rows[2].password)
    ensures HasRead(start, vault, userID, plain)
  {
    assert Exec(start, [], vault, userID) == start;
    ExecAppend(start, [], READ, vault, userID);
    assert [] + [READ] == [READ];
    assert Exec(start, [READ], vault, userID) == start.(kept := Some(plain));
    ExecAppend(start, [READ], READ, vault, userID);
  }

  // What another client leaves of the two rows then decides which condition is kept.
  lemma KeepsAfterReads(start: State, other: Rows, vault: Vault, userID: string, plain: string)
    requires HasRead(start, vault, userID, plain)
    ensures Keeps(Exec(start, [READ] + [READ], vault, userID), other, vault,
                  2 in other && vault.Plain(other[2].password) == plain,
                  1 in other ==> vault.Plain(other[1].password) == plain,
                  1 in other && 2 in other ==> SameGroup(other[1], other[2]))
  {
    var s := start.(kept := Some(plain), doomed := true);
    assert InGroup(other, s.jobs[0]) <==> (1 in other && 2 in other ==> SameGroup(other[1], other[2])) by {
      assert 1 in s.jobs[0].copies;
    }
  }

  lemma LosesAfterReads(start: State, other: Rows, vault: Vault, userID: string, plain: string)
    requires HasRead(start, vault, userID, plain) && 1 in other && other.Keys <= {1, 2} && other[1].userID == userID
    requires 2 in other ==> EntryOf(other, vault, 2) != EntryOf(other, vault, 1)
    ensures Loses(Exec(start, [READ] + [READ] + [Other(other)], vault, userID), vault, userID, EntryOf(other, vault, 1))
  {
    ExecAppend(start, [READ] + [READ], Other(other), vault, userID);
    LoneCopyIsLost(start.(rows := other, kept := Some(plain), doomed := true), vault, userID);
  }

  // The kept row is deleted after it was read: the copy goes too, and nothing is left.
  lemma DeletedKeptRowLoses(userID: string, l: Labels, m: Labels, vault: Vault, password: string) returns (start: State)
    requires l != m && GroupKey(l) == GroupKey(m)
    ensures var rows := TwoRows(userID, l, m, password, password);
            var other := rows - {2};
            && Starts(start, rows, userID) && UniqueLabels(rows) && UniqueLabels(other)
            && Keeps(Exec(start, [READ] + [READ], vault, userID), other, vault, false, true, true)
            && Loses(Exec(start, [READ] + [READ] + [Other(other)], vault, userID), vault, userID, EntryOf(other, vault, 1))
  {
    start := TwoReads(userID, l, m, password, vault);
    var other := TwoRows(userID, l, m, password, password) - {2};
    KeepsAfterReads(start, other, vault, userID, vault.Plain(password));
    LosesAfterReads(start, other, vault, userID, vault.Plain(password));
  }

  // The kept row gets another password after it was read: the last row with the old one goes.
  lemma ChangedKeptRowLoses(userID: string, l: Labels, m: Labels, vault: Vault, password: string, later: string) returns (start: State)
    requires l != m && GroupKey(l) == GroupKey(m) && vault.Plain(later) != vault.Plain(password)
    ensures var rows, other := TwoRows(userID, l, m, password, password), TwoRows(userID, l, m, password, later);
            && Starts(start, rows, userID) && UniqueLabels(rows) && UniqueLabels(other)
            && Keeps(Exec(start, [READ] + [READ], vault, userID), other, vault, false, true, true)
            && Loses(Exec(start, [READ] + [READ] + [Other(other)], vault, userID), vault, userID, EntryOf(other, vault, 1))
  {
    start := TwoReads(userID, l, m, password, vault);
    var other := TwoRows(userID, l, m, password, later);
    TwoRowsAreUnique(userID, l, m, password, later);
    KeepsAfterReads(start, other, vault, userID, vault.Plain(password));
    LosesAfterReads(start, other, vault, userID, vault.Plain(password));
  }

  // A copy gets another password between its read and its delete: the new password goes.
  lemma ChangedCopyLoses(userID: string, l: Labels, m: Labels, vault: Vault, password: string, later: string) returns (start: State)
    requires l != m && GroupKey(l) == GroupKey(m) && vault.Plain(later) != vault.Plain(password)
    ensures var rows, other := TwoRows(userID, l, m, password, password), TwoRows(userID, l, m, later, password);
            && Starts(start, rows, userID) && UniqueLabels(rows) && UniqueLabels(other)
            && Keeps(Exec(start, [READ] + [READ], vault, userID), other, vault, true, false, true)
            && Loses(Exec(start, [READ] + [READ] + [Other(other)], vault, userID), vault, userID, EntryOf(other, vault, 1))
  {
    start := TwoReads(userID, l, m, password, vault);
    var other := TwoRows(userID, l, m, later, password);
    TwoRowsAreUnique(userID, l, m, later, password);
    KeepsAfterReads(start, other, vault, userID, vault.Plain(password));
    LosesAfterReads(start, other, vault, userID, vault.Plain(password));
  }

  lemma TwoRowsKeys(userID: string, n: Labels, m: Labels, password: string)
    requires n.name != m.name || n.website != m.website
    ensures var rows := TwoRows(userID, n, m, password, password);
            UniqueLabels(rows) && rows.Keys == {1, 2} && rows[1].Key() == GroupKey(n) && rows[2].Key() == GroupKey(m) && rows[1].userID == userID
  {
    var rows := TwoRows(userID, n, m, password, password);
    assert rows[1].Labels() == n && rows[2].Labels() == m;
  }

  // A copy is relabelled after the analysis: the key is not checked again, and its entry goes.
  lemma RelabelledCopyLoses(userID: string, l: Labels, m: Labels, n: Labels, vault: Vault, password: string) returns (start: State)
    requires l != m && GroupKey(l) == GroupKey(m) && GroupKey(n) != GroupKey(m) && (n.name != m.name || n.website != m.website)
    ensures var rows, other := TwoRows(userID, l, m, password, password), TwoRows(userID, n, m, password, password);
            && Starts(start, rows, userID) && UniqueLabels(rows) && UniqueLabels(other)
            && Keeps(Exec(start, [READ] + [READ], vault, userID), other, vault, true, true, false)
            && Loses(Exec(start, [READ] + [READ] + [Other(other)], vault, userID), vault, userID, EntryOf(other, vault, 1))
  {
    start := TwoReads(userID, l, m, password, vault);
    var other := TwoRows(userID, n, m, password, password);
    TwoRowsKeys(userID, n, m, password);
    KeepsAfterReads(start, other, vault, userID, vault.Plain(password));
    LosesAfterReads(start, other, vault, userID, vault.Plain(password));
  }

  // ------------------------------------------------------------------ a run with nobody else

  // How far a run has come with a table that nobody else writes.
  ghost predicate Alone(s: State, rows: Rows, vault: Vault, userID: string) {
    && PartlyPruned(rows, s.rows, vault, userID)
    && (forall i | 0 <= i < |s.jobs| :: IsGreatest(rows, s.jobs[i].kept) && rows[s.jobs[i].kept].userID == userID
          && forall id | id in s.jobs[i].copies :: id in rows && id < s.jobs[i].kept && SameGroup(rows[id], rows[s.jobs[i].kept]))
    && (s.kept.Some? ==> s.jobs != [] && s.kept.value == vault.Plain(rows[s.jobs[0].kept].password))
    && (s.doomed ==> s.kept.Some? && s.jobs[0].copies != [] && vault.Plain(rows[s.jobs[0].copies[0]].password) == s.kept.value)
  }

  // Every redundant row that is left is still to be compared.
  ghost predicate Complete(s: State, rows: Rows, vault: Vault, userID: string) {
    forall id | id in s.rows && id in rows && rows[id].userID == userID && Redundant(rows, vault, id) ::
      exists i :: 0 <= i < |s.jobs| && id in s.jobs[i].copies
  }

  lemma StatementAlone(s: State, step: Step, rows: Rows, vault: Vault, userID: string)
    requires Alone(s, rows, vault, userID) && step.Statement?
    ensures Alone(Next(s, step, vault, userID), rows, vault, userID)
  {
    var t := Next(s, step, vault, userID);
    StatementNarrows(s, step, vault, userID);
    OnlyDeletesChangeRows(s, step, vault, userID);
    if Deletes(s, step, userID) {
      var job := s.jobs[0];
      assert job.copies[0] in job.copies;
      assert RedundantTo(rows, vault, job.copies[0], job.kept);
    }
  }

  lemma StatementCompletes(s: State, rows: Rows, vault: Vault, userID: string)
    requires Alone(s, rows, vault, userID) && Complete(s, rows, vault, userID)
    ensures Complete(Next(s, Statement(true), vault, userID), rows, vault, userID)
  {
    var t := Next(s, Statement(true), vault, userID);
    forall id | id in t.rows && id in rows && rows[id].userID == userID && Redundant(rows, vault, id)
      ensures exists i :: 0 <= i < |t.jobs| && id in t.jobs[i].copies
    {
      var i :| 0 <= i < |s.jobs| && id in s.jobs[i].copies;
      if i > 0 {
        StillListed(s, vault, userID, i, id);
      } else {
        StillFirst(s, rows, vault, userID, id);
      }
    }
  }

  lemma StillListed(s: State, vault: Vault, userID: string, i: nat, id: int)
    requires 0 < i < |s.jobs| && id in s.jobs[i].copies
    ensures exists j :: 0 <= j < |Next(s, Statement(true), vault, userID).jobs| && id in Next(s, Statement(true), vault, userID).jobs[j].copies
  {
    var after := Next(s, Statement(true), vault, userID).jobs;
    if |after| < |s.jobs| {
      assert after == s.jobs[1..] && after[i - 1] == s.jobs[i];
    } else {
      assert after[i] == s.jobs[i];
    }
  }

  // A redundant copy of the first job is only passed over once it is gone.
  lemma StillFirst(s: State, rows: Rows, vault: Vault, userID: string, id: int)
    requires Alone(s, rows, vault, userID) && s.jobs != [] && id in s.jobs[0].copies
    requires id in rows && rows[id].userID == userID && Redundant(rows, vault, id)
    requires id in Next(s, Statement(true), vault, userID).rows
    ensures var after := Next(s, Statement(true), vault, userID).jobs; after != [] && id in after[0].copies
  {
    var job := s.jobs[0];
    GreatestSurvives(rows, s.rows, vault, userID, job.kept);
    var kept :| RedundantTo(rows, vault, id, kept);
    GreatestIsUnique(rows, kept, job.kept);
    assert job.copies == [job.copies[0]] + job.copies[1..];
  }

  lemma {:induction false} RunAlone(start: State, rows: Rows, userID: string, vault: Vault, steps: seq<Step>)
    requires IdsMatch(rows) && Starts(start, rows, userID)
    requires forall x | x in steps :: x.Statement?
    ensures Alone(Exec(start, steps, vault, userID), rows, vault, userID)
    ensures (forall x | x in steps :: x.up) ==> Complete(Exec(start, steps, vault, userID), rows, vault, userID)
    decreases |steps|
  {
    if steps == [] {
      JobsArePlanned(start, rows, userID);
      forall i | 0 <= i < |start.jobs|
        ensures IsGreatest(rows, start.jobs[i].kept) && rows[start.jobs[i].kept].userID == userID
        ensures forall id | id in start.jobs[i].copies :: id in rows && id < start.jobs[i].kept && SameGroup(rows[id], rows[start.jobs[i].kept])
      {
        assert Planned(rows, userID, start.jobs[i]);
      }
      forall id | id in rows && rows[id].userID == userID && Redundant(rows, vault, id)
        ensures exists i :: 0 <= i < |start.jobs| && id in start.jobs[i].copies
      {
        RedundantIsPlanned(start, rows, userID, vault, id);
      }
    } else {
      var before, last := steps[..|steps| - 1], steps[|steps| - 1];
      assert last in steps && forall x | x in before :: x in steps;
      RunAlone(start, rows, userID, vault, before);
      var s := Exec(start, before, vault, userID);
      StatementAlone(s, last, rows, vault, userID);
      if forall x | x in steps :: x.up {
        StatementCompletes(s, rows, vault, userID);
      }
    }
  }

  // Main result: with nobody else writing, the statements do what DedupService.RemoveDuplicates
  // promises. Whatever fails, only redundant rows go; and if every statement is answered, all of
  // them are gone once no job is left, as after enough statements.
  lemma RunAloneIsRemoveDuplicates(start: State, rows: Rows, userID: string, vault: Vault, steps: seq<Step>)
    requires IdsMatch(rows) && Starts(start, rows, userID)
    requires forall x | x in steps :: x.Statement?
    ensures var t := Exec(start, steps, vault, userID);
            && PartlyPruned(rows, t.rows, vault, userID)
            && (|steps| >= WorkOf(start.jobs) ==> t.jobs == [])
            && (t.jobs == [] && (forall x | x in steps :: x.up) ==> t.rows == Pruned(rows, vault, userID))
  {
    var t := Exec(start, steps, vault, userID);
    JobsArePlanned(start, rows, userID);
    RunFinishes(start, steps, vault, userID);
    RunAlone(start, rows, userID, vault, steps);
    if t.jobs == [] && forall x | x in steps :: x.up {
      forall id ensures Lookup(t.rows, id) == Lookup(Pruned(rows, vault, userID), id) { }
      SameRows(t.rows, Pruned(rows, vault, userID));
    }
  }

  // How many statements are left at most: one for each kept row, two for each copy.
  function WorkOf(jobs: seq<Job>): nat {
    if jobs == [] then 0 else 1 + 2 * |jobs[0].copies| + WorkOf(jobs[1..])
  }

  predicate InStep(s: State) {
    && (s.kept.Some? ==> s.jobs != [] && s.jobs[0].copies != [])
    && (s.doomed ==> s.kept.Some?)
  }

  function WorkLeft(s: State): int {
    WorkOf(s.jobs) - (if s.kept.Some? then 1 else 0) - (if s.doomed then 1 else 0)
  }

  lemma StatementProgresses(s: State, step: Step, vault: Vault, userID: string)
    requires step.Statement? && InStep(s)
    ensures var t := Next(s, step, vault, userID);
            InStep(t) && (s.jobs != [] ==> WorkLeft(t) < WorkLeft(s)) && WorkLeft(t) >= 0
  {
    if s.jobs != [] && s.jobs[0].copies != [] && |s.jobs[0].copies| > 1 {
      var job := s.jobs[0];
      assert ([job.(copies := job.copies[1..])] + s.jobs[1..])[1..] == s.jobs[1..];
    }
  }

  // Enough statements finish a run that nobody disturbs, whatever fails.
  lemma {:induction false} RunFinishes(start: State, steps: seq<Step>, vault: Vault, userID: string)
    requires InStep(start) && forall x | x in steps :: x.Statement?
    ensures InStep(Exec(start, steps, vault, userID))
    ensures |steps| >= WorkLeft(start) ==> Exec(start, steps, vault, userID).jobs == []
    ensures Exec(start, steps, vault, userID).jobs == [] || WorkLeft(Exec(start, steps, vault, userID)) <= WorkLeft(start) - |steps|
    decreases |steps|
  {
    if steps != [] {
      var before, last := steps[..|steps| - 1], steps[|steps| - 1];
      assert last in steps && forall x | x in before :: x in steps;
      RunFinishes(start, before, vault, userID);
      StatementProgresses(Exec(start, before, vault, userID), last, vault, userID);
    }
  }
}
