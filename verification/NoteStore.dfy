// The notes table and the statements the note repository runs on it. Every statement is atomic.
module NoteStore {
  import opened Wrappers
  import LikeEscape

  datatype Row = Row(content: string, title: string, createdAt: int, userID: string, version: int)

  // The table and its id sequence. The sequence only moves forward, so ids are never reused.
  datatype Table = Table(rows: map<int, Row>, nextId: int)

  predicate Matches(rows: map<int, Row>, id: int, title: string, userID: string) {
    id in rows && rows[id].title == title && rows[id].userID == userID
  }

  // A user has at most one note of each title.
  ghost predicate UniqueTitles(rows: map<int, Row>) {
    forall i, j | i in rows && j in rows && rows[i].title == rows[j].title && rows[i].userID == rows[j].userID :: i == j
  }

  ghost predicate Valid(t: Table) {
    UniqueTitles(t.rows) && forall id | id in t.rows :: id < t.nextId
  }

  ghost function IdOf(rows: map<int, Row>, title: string, userID: string): Option<int> {
    if id :| Matches(rows, id, title, userID) then Some(id) else None
  }

  lemma IdOfIsUnique(rows: map<int, Row>, id: int)
    requires UniqueTitles(rows) && id in rows
    ensures IdOf(rows, rows[id].title, rows[id].userID) == Some(id)
  {
    assert Matches(rows, id, rows[id].title, rows[id].userID);
  }

  // An upsert inserts the note, or, where the user already has the title, replaces the content and
  // raises the version. The sequence is advanced even when the row exists.
  ghost function AfterUpsert(t: Table, content: string, title: string, createdAt: int, userID: string): (Table, int) {
    match IdOf(t.rows, title, userID)
    case Some(id) =>
      if id in t.rows then
        (Table(t.rows[id := t.rows[id].(content := content, version := t.rows[id].version + 1)], t.nextId + 1), id)
      else (t, id)
    case None =>
      (Table(t.rows[t.nextId := Row(content, title, createdAt, userID, 0)], t.nextId + 1), t.nextId)
  }

  datatype UpdateOutcome = Updated | VersionConflict | TitleTaken

  // The guard of the update: the row is there, belongs to the user and has the version that was read.
  predicate UpdateHits(t: Table, id: int, userID: string, version: int) {
    id in t.rows && t.rows[id].userID == userID && t.rows[id].version == version
  }

  ghost function UpdateResult(t: Table, id: int, userID: string, version: int, title: string): UpdateOutcome {
    if !UpdateHits(t, id, userID, version) then VersionConflict
    else if exists other :: Matches(t.rows, other, title, userID) && other != id then TitleTaken
    else Updated
  }

  ghost function AfterUpdate(t: Table, id: int, userID: string, version: int, content: string, title: string): Table {
    if UpdateResult(t, id, userID, version, title) == Updated then
      t.(rows := t.rows[id := t.rows[id].(content := content, title := title, version := version + 1)])
    else t
  }

  predicate DeleteHits(t: Table, id: int, userID: string) {
    id in t.rows && t.rows[id].userID == userID
  }

  function AfterDelete(t: Table, id: int, userID: string): Table {
    if DeleteHits(t, id, userID) then t.(rows := t.rows - {id}) else t
  }

  ghost function AfterInsert(t: Table, row: Row): Table {
    if exists other :: Matches(t.rows, other, row.title, row.userID) then t.(nextId := t.nextId + 1)
    else Table(t.rows[t.nextId := row], t.nextId + 1)
  }

  // Rows of the user whose title matches the search pattern.
  function SearchByTitle(t: Table, title: string, userID: string, fold: char -> char): set<int> {
    set id | id in t.rows && t.rows[id].userID == userID
             && LikeEscape.Like(t.rows[id].title, LikeEscape.SearchPattern(title), fold)
  }

  // A search finds exactly the user's notes whose title contains the text.
  lemma SearchFindsExactlyContaining(t: Table, title: string, userID: string, fold: char -> char, id: int)
    ensures id in SearchByTitle(t, title, userID, fold) <==>
            id in t.rows && t.rows[id].userID == userID && LikeEscape.Contains(t.rows[id].title, title, fold)
  {
    if id in t.rows {
      LikeEscape.SearchPatternMeansContains(t.rows[id].title, title, fold);
    }
  }

  // The struct the service passes around; the repository writes ids and versions back into it.
  class Note {
    var id: int
    var content: string
    var title: string
    var createdAt: int
    var userID: string
    var version: int

    constructor (content: string, title: string, createdAt: int, userID: string)
      ensures this.content == content && this.title == title && this.createdAt == createdAt && this.userID == userID
    {
      this.id := 0;
      this.content := content;
      this.title := title;
      this.createdAt := createdAt;
      this.userID := userID;
      this.version := 0;
    }
  }

  // `up` says whether the database answers the statement.
  class NoteRepo {
    var rows: map<int, Row>
    var nextId: int

    function Contents(): Table
      reads this
    {
      Table(rows, nextId)
    }

    constructor ()
      ensures Contents() == Table(map[], 1) && Valid(Contents())
    {
      rows := map[];
      nextId := 1;
    }

    method FindByID(id: int, up: bool) returns (ok: bool, row: Option<Row>)
      ensures ok == up && (ok ==> row == Lookup(rows, id))
    {
      ok := up;
      row := Lookup(rows, id);
    }

    method FindByTitleAndUser(title: string, userID: string, up: bool) returns (ok: bool, row: Option<Row>)
      requires Valid(Contents())
      ensures ok == up
      ensures ok ==> match IdOf(rows, title, userID)
                     case Some(id) => id in rows && row == Some(rows[id])
                     case None => row == None
    {
      var id := FindId(title, userID);
      ok := up;
      row := if id.Some? then Some(rows[id.value]) else None;
    }

    method FindId(title: string, userID: string) returns (found: Option<int>)
      requires Valid(Contents())
      ensures found == IdOf(rows, title, userID)
      ensures found.Some? ==> Matches(rows, found.value, title, userID)
    {
      if id :| id in rows && Matches(rows, id, title, userID) {
        IdOfIsUnique(rows, id);
        return Some(id);
      }
      assert IdOf(rows, title, userID).None? by {
        if id :| Matches(rows, id, title, userID) { assert false; }
      }
      return None;
    }

    method Upsert(note: Note, up: bool) returns (ok: bool)
      requires Valid(Contents())
      modifies this, note`id, note`version
      ensures ok == up && Valid(Contents())
      ensures !ok ==> Contents() == old(Contents()) && note.id == old(note.id) && note.version == old(note.version)
      ensures ok ==> var (t, id) := AfterUpsert(old(Contents()), note.content, note.title, note.createdAt, note.userID);
                     Contents() == t && note.id == id && id in rows && note.version == rows[id].version
      ensures ok ==> rows.Keys == old(rows).Keys + {note.id} && forall x | x in old(rows) && x != note.id :: rows[x] == old(rows)[x]
      ensures ok && note.id !in old(rows) ==>
                note.id == old(nextId) && rows[note.id] == Row(note.content, note.title, note.createdAt, note.userID, 0)
      ensures ok && note.id in old(rows) ==>
                var was := old(rows)[note.id];
                was.title == note.title && was.userID == note.userID
                && rows[note.id] == Row(note.content, was.title, was.createdAt, was.userID, was.version + 1)
    {
      if !up { return false; }
      var found := FindId(note.title, note.userID);
      if found.Some? {
        var id := found.value;
        rows := rows[id := rows[id].(content := note.content, version := rows[id].version + 1)];
        note.id := id;
      } else {
        assert forall id | id in rows :: !Matches(rows, id, note.title, note.userID);
        rows := rows[nextId := Row(note.content, note.title, note.createdAt, note.userID, 0)];
        note.id := nextId;
      }
      nextId := nextId + 1;
      note.version := rows[note.id].version;
      return true;
    }

    method Update(note: Note, up: bool) returns (ok: bool, outcome: UpdateOutcome)
      requires Valid(Contents())
      modifies this, note`version
      ensures ok == up && Valid(Contents())
      ensures !ok ==> Contents() == old(Contents()) && note.version == old(note.version)
      ensures ok ==> outcome == UpdateResult(old(Contents()), note.id, note.userID, old(note.version), note.title)
      ensures ok ==> Contents() == AfterUpdate(old(Contents()), note.id, note.userID, old(note.version), note.content, note.title)
      ensures ok ==> (outcome == VersionConflict <==>
                        note.id !in old(rows) || old(rows)[note.id].userID != note.userID || old(rows)[note.id].version != old(note.version))
      ensures ok && outcome == TitleTaken ==>
                exists other :: other in rows && other != note.id && rows[other].title == note.title && rows[other].userID == note.userID
      ensures ok && outcome != Updated ==> rows == old(rows)
      ensures ok && outcome == Updated ==>
                note.id in old(rows)
                && rows == old(rows)[note.id := Row(note.content, note.title, old(rows)[note.id].createdAt, note.userID, old(note.version) + 1)]
      ensures ok ==> note.version == if outcome == Updated then old(note.version) + 1 else old(note.version)
    {
      ok, outcome := up, VersionConflict;
      if !up || !UpdateHits(Table(rows, nextId), note.id, note.userID, note.version) { return; }
      var holder := FindId(note.title, note.userID);
      if holder.Some? && holder.value != note.id {
        outcome := TitleTaken;
        return;
      }
      outcome := Updated;
      forall other | Matches(rows, other, note.title, note.userID) ensures other == note.id {
        IdOfIsUnique(rows, other);
      }
      UpdateKeepsValid(Contents(), note.id, note.userID, note.version, note.content, note.title);
      rows := rows[note.id := rows[note.id].(content := note.content, title := note.title, version := note.version + 1)];
      note.version := note.version + 1;
    }

    method Delete(id: int, userID: string, up: bool) returns (ok: bool, found: bool)
      requires Valid(Contents())
      modifies this`rows
      ensures ok == up && Valid(Contents())
      ensures !ok ==> Contents() == old(Contents())
      ensures ok ==> found == DeleteHits(old(Contents()), id, userID) && Contents() == AfterDelete(old(Contents()), id, userID)
      ensures ok ==> (found <==> id in old(rows) && old(rows)[id].userID == userID)
      ensures rows == if ok && found then old(rows) - {id} else old(rows)
    {
      ok := up;
      found := DeleteHits(Table(rows, nextId), id, userID);
      if ok && found {
        rows := rows - {id};
      }
    }
  }

  // ------------------------------------------------------------------ what every statement keeps

  lemma UpsertKeepsValid(t: Table, content: string, title: string, createdAt: int, userID: string)
    requires Valid(t)
    ensures Valid(AfterUpsert(t, content, title, createdAt, userID).0)
  {
    var t' := AfterUpsert(t, content, title, createdAt, userID).0;
    if IdOf(t.rows, title, userID).None? {
      assert forall id | id in t.rows :: !Matches(t.rows, id, title, userID);
    }
  }

  lemma UpdateKeepsValid(t: Table, id: int, userID: string, version: int, content: string, title: string)
    requires Valid(t)
    ensures Valid(AfterUpdate(t, id, userID, version, content, title))
  {
    if UpdateResult(t, id, userID, version, title) == Updated {
      assert forall other | other in t.rows && other != id :: !Matches(t.rows, other, title, userID);
    }
  }

  lemma InsertKeepsValid(t: Table, row: Row)
    requires Valid(t)
    ensures Valid(AfterInsert(t, row))
  {
    if !(exists other :: Matches(t.rows, other, row.title, row.userID)) {
      assert forall other | other in t.rows :: !Matches(t.rows, other, row.title, row.userID);
    }
  }
}

// Clients updating notes at the same time: no update is lost.
module NoteRuns {
  import opened Wrappers
  import opened NoteStore

  // A client between FindByID and the guarded write of NoteService.Update.
  datatype Pending = Pending(id: int, read: Row, title: string, content: string)

  datatype State = State(table: Table, pending: map<string, Pending>)

  // Create covers Import too; Read and Write are the two statements of an update. createdAt,
  // content and the rest are the values the statement is given, encrypted or not.
  datatype Step =
    | Create(content: string, title: string, createdAt: int, userID: string)
    | Insert(row: Row)
    | Read(client: string, id: int, userID: string, title: string, content: string)
    | Write(client: string)
    | Delete(id: int, userID: string)

  predicate Enabled(s: State, step: Step) {
    step.Write? ==> step.client in s.pending
  }

  ghost function Next(s: State, step: Step): State
    requires Enabled(s, step)
  {
    match step
    case Create(content, title, createdAt, userID) => s.(table := AfterUpsert(s.table, content, title, createdAt, userID).0)
    case Insert(row) => s.(table := AfterInsert(s.table, row))
    case Read(client, id, userID, title, content) =>
      if id in s.table.rows && s.table.rows[id].userID == userID then
        s.(pending := s.pending[client := Pending(id, s.table.rows[id], title, content)])
      else s.(pending := s.pending - {client})
    case Write(client) =>
      var p := s.pending[client];
      State(AfterUpdate(s.table, p.id, p.read.userID, p.read.version, p.content, p.title), s.pending - {client})
    case Delete(id, userID) => s.(table := AfterDelete(s.table, id, userID))
  }

  // states[i] --steps[i]--> states[i + 1], from an empty table.
  ghost predicate Run(states: seq<State>, steps: seq<Step>) {
    && |states| == |steps| + 1
    && states[0] == State(Table(map[], 1), map[])
    && forall i | 0 <= i < |steps| :: Enabled(states[i], steps[i]) && states[i + 1] == Next(states[i], steps[i])
  }

  // Later(t, u): what holds between a table and any later one. Versions of a row only grow, a row
  // with an unchanged version is an unchanged row, owner and creation time never change, and a
  // deleted id does not come back.
  ghost predicate Later(t: Table, u: Table) {
    && t.nextId <= u.nextId
    && (forall id | id in t.rows && id in u.rows ::
          t.rows[id].version <= u.rows[id].version
          && t.rows[id].userID == u.rows[id].userID && t.rows[id].createdAt == u.rows[id].createdAt
          && (t.rows[id].version == u.rows[id].version ==> t.rows[id] == u.rows[id]))
    && (forall id | id in u.rows && id < t.nextId :: id in t.rows)
  }

  lemma StepIsLater(s: State, step: Step)
    requires Valid(s.table) && Enabled(s, step)
    ensures Valid(Next(s, step).table) && Later(s.table, Next(s, step).table)
  {
    match step
    case Create(content, title, createdAt, userID) => UpsertKeepsValid(s.table, content, title, createdAt, userID);
    case Insert(row) => InsertKeepsValid(s.table, row);
    case Read(_, _, _, _, _) =>
    case Write(client) =>
      var p := s.pending[client];
      UpdateKeepsValid(s.table, p.id, p.read.userID, p.read.version, p.content, p.title);
    case Delete(_, _) =>
  }

  lemma LaterIsTransitive(t: Table, u: Table, v: Table)
    requires Valid(t) && Valid(u) && Valid(v) && Later(t, u) && Later(u, v)
    ensures Later(t, v)
  {
    forall id | id in t.rows && id in v.rows
      ensures t.rows[id].version <= v.rows[id].version
      ensures t.rows[id].userID == v.rows[id].userID && t.rows[id].createdAt == v.rows[id].createdAt
      ensures t.rows[id].version == v.rows[id].version ==> t.rows[id] == v.rows[id]
    {
      assert id in u.rows;
    }
  }

  lemma {:induction false} RunIsValid(states: seq<State>, steps: seq<Step>, i: nat)
    requires Run(states, steps) && i < |states|
    ensures Valid(states[i].table)
    decreases i
  {
    if i > 0 {
      RunIsValid(states, steps, i - 1);
      StepIsLater(states[i - 1], steps[i - 1]);
    }
  }

  lemma {:induction false} RunIsLater(states: seq<State>, steps: seq<Step>, i: nat, j: nat)
    requires Run(states, steps) && i <= j < |states|
    ensures Later(states[i].table, states[j].table)
    decreases j
  {
    RunIsValid(states, steps, i);
    if i < j {
      RunIsLater(states, steps, i, j - 1);
      RunIsValid(states, steps, j - 1);
      RunIsValid(states, steps, j);
      StepIsLater(states[j - 1], steps[j - 1]);
      LaterIsTransitive(states[i].table, states[j - 1].table, states[j].table);
    }
  }

  // Steps i and j are the read and the write of one update: no step of that client in between.
  ghost predicate UpdateSpan(states: seq<State>, steps: seq<Step>, i: nat, j: nat) {
    && Run(states, steps)
    && i < j < |steps|
    && steps[i].Read? && steps[j].Write? && steps[j].client == steps[i].client
    && steps[i].client in states[i + 1].pending
    && forall k | i < k < j :: steps[k].Read? || steps[k].Write? ==> steps[k].client != steps[i].client
  }

  lemma {:induction false} PendingIsKept(states: seq<State>, steps: seq<Step>, i: nat, j: nat, k: nat)
    requires UpdateSpan(states, steps, i, j) && i < k <= j
    ensures steps[i].client in states[k].pending
    ensures states[k].pending[steps[i].client]
              == Pending(steps[i].id, states[i + 1].table.rows[steps[i].id], steps[i].title, steps[i].content)
    ensures steps[i].id in states[i].table.rows && states[i + 1].table == states[i].table
    decreases k
  {
    if k > i + 1 {
      PendingIsKept(states, steps, i, j, k - 1);
    }
  }

  // The row of an update and the guard of its write, as they are in state j.
  ghost predicate WriteHits(states: seq<State>, steps: seq<Step>, i: nat, j: nat)
    requires UpdateSpan(states, steps, i, j)
  {
    var row := states[i + 1].pending[steps[i].client].read;
    UpdateHits(states[j].table, steps[i].id, row.userID, row.version)
  }

  // Main result: in every interleaving, the guarded write finds its row exactly when nobody has
  // written or deleted the row since the client read it.
  lemma NoLostUpdate(states: seq<State>, steps: seq<Step>, i: nat, j: nat)
    requires UpdateSpan(states, steps, i, j)
    ensures steps[i].id in states[i].table.rows
    ensures WriteHits(states, steps, i, j) <==>
            forall k | i <= k <= j :: steps[i].id in states[k].table.rows
                                      && states[k].table.rows[steps[i].id] == states[i].table.rows[steps[i].id]
  {
    PendingIsKept(states, steps, i, j, i + 1);
    var id := steps[i].id;
    if WriteHits(states, steps, i, j) {
      forall k | i <= k <= j
        ensures id in states[k].table.rows && states[k].table.rows[id] == states[i].table.rows[id]
      {
        RunIsValid(states, steps, i);
        RunIsLater(states, steps, i, k);
        RunIsLater(states, steps, k, j);
      }
    }
  }

  // What the write then leaves behind: the new title and content and the next version, or, when
  // the title belongs to another note of the user, the table as it was.
  lemma SuccessfulWrite(states: seq<State>, steps: seq<Step>, i: nat, j: nat)
    requires UpdateSpan(states, steps, i, j)
    ensures var before, after := states[j].table, states[j + 1].table;
            var id, row := steps[i].id, states[i + 1].pending[steps[i].client].read;
            if WriteHits(states, steps, i, j) && IdOf(before.rows, steps[i].title, row.userID) in {None, Some(id)} then
              after == before.(rows := before.rows[id := row.(title := steps[i].title, content := steps[i].content, version := row.version + 1)])
            else after == before
  {
    PendingIsKept(states, steps, i, j, j);
    PendingIsKept(states, steps, i, j, i + 1);
    NoLostUpdate(states, steps, i, j);
    RunIsValid(states, steps, j);
    var t, id, row := states[j].table, steps[i].id, states[i + 1].pending[steps[i].client].read;
    if WriteHits(states, steps, i, j) {
      forall other | Matches(t.rows, other, steps[i].title, row.userID)
        ensures IdOf(t.rows, steps[i].title, row.userID) == Some(other)
      {
        IdOfIsUnique(t.rows, other);
      }
    }
  }

  // What the client is told: a conflict exactly when the row did not stay as it was read, and
  // otherwise success, unless the new title belongs to another note of the user.
  lemma OutcomeIff(states: seq<State>, steps: seq<Step>, i: nat, j: nat)
    requires UpdateSpan(states, steps, i, j)
    ensures steps[i].id in states[i].table.rows
    ensures var id, row := steps[i].id, states[i].table.rows[steps[i].id];
            var outcome := UpdateResult(states[j].table, id, row.userID, row.version, steps[i].title);
            && (outcome != VersionConflict <==> forall k | i <= k <= j :: id in states[k].table.rows && states[k].table.rows[id] == row)
            && (outcome == TitleTaken ==> exists other :: other != id && Matches(states[j].table.rows, other, steps[i].title, row.userID))
            && (outcome == Updated ==>
                  states[j + 1].table.rows
                    == states[j].table.rows[id := row.(title := steps[i].title, content := steps[i].content, version := row.version + 1)])
            && (outcome != Updated ==> states[j + 1].table == states[j].table)
  {
    PendingIsKept(states, steps, i, j, i + 1);
    PendingIsKept(states, steps, i, j, j);
    NoLostUpdate(states, steps, i, j);
  }

  // A delete removes the row of its owner and nothing else; of anybody else, nothing at all.
  lemma DeleteIs(s: State, id: int, userID: string)
    ensures var t := Next(s, Delete(id, userID));
            && t.pending == s.pending && t.table.nextId == s.table.nextId
            && t.table.rows == if id in s.table.rows && s.table.rows[id].userID == userID then s.table.rows - {id} else s.table.rows
  {
  }

  lemma {:induction false} SomeStepChanges(states: seq<State>, id: int, i: nat, j: nat) returns (k: nat)
    requires i <= j < |states| && Lookup(states[i].table.rows, id) != Lookup(states[j].table.rows, id)
    ensures i <= k < j && Lookup(states[k + 1].table.rows, id) != Lookup(states[k].table.rows, id)
    decreases j
  {
    if Lookup(states[j - 1].table.rows, id) != Lookup(states[j].table.rows, id) {
      k := j - 1;
    } else {
      k := SomeStepChanges(states, id, i, j - 1);
    }
  }

  // A write that reports a conflict really had one: some step in between wrote or deleted the row.
  lemma ConflictHasACause(states: seq<State>, steps: seq<Step>, i: nat, j: nat) returns (k: nat)
    requires UpdateSpan(states, steps, i, j) && !WriteHits(states, steps, i, j)
    ensures i < k < j && Lookup(states[k + 1].table.rows, steps[i].id) != Lookup(states[k].table.rows, steps[i].id)
  {
    NoLostUpdate(states, steps, i, j);
    PendingIsKept(states, steps, i, j, i + 1);
    var id := steps[i].id;
    var m :| i <= m <= j && !(id in states[m].table.rows && states[m].table.rows[id] == states[i].table.rows[id]);
    k := SomeStepChanges(states, id, i, m);
  }
}
