// The transaction of an upsert, statement by statement, among other clients of the password table.
module PasswordUpserts {
  import opened Wrappers
  import opened PasswordStore

  // A transaction past its select. The row it found is locked until the transaction ends.
  datatype Pending = Pending(pw: Password, found: Option<int>)

  datatype State = State(rows: Rows, nextId: int, pending: map<nat, Pending>)

  datatype Step =
    | Select(transaction: nat, pw: Password)
    | Write(transaction: nat)
    | Rollback(transaction: nat)
    | Insert(pw: Password)
    | Update(pw: Password)
    | Delete(id: int, userID: string)

  ghost predicate Locked(s: State, id: int) {
    exists r :: r in s.pending && s.pending[r].found == Some(id)
  }

  // A statement on a locked row waits for the end of the transaction that holds it.
  ghost predicate Enabled(s: State, step: Step) {
    match step
    case Select(r, pw) => r !in s.pending && (Holder(s.rows, pw).Some? ==> !Locked(s, Holder(s.rows, pw).value))
    case Write(r) => r in s.pending
    case Rollback(r) => r in s.pending
    case Insert(_) => true
    case Update(pw) => !Locked(s, pw.id)
    case Delete(id, _) => !Locked(s, id)
  }

  // The constraint refuses a second row for an entry; the id sequence moves on all the same.
  ghost function Inserted(s: State, pw: Password): State {
    if Holder(s.rows, pw).Some? then s.(nextId := s.nextId + 1)
    else s.(rows := s.rows[s.nextId := pw.(id := s.nextId)], nextId := s.nextId + 1)
  }

  ghost function Next(s: State, step: Step): State {
    if !Enabled(s, step) then s
    else match step
      case Select(r, pw) => s.(pending := s.pending[r := Pending(pw, Holder(s.rows, pw))])
      case Write(r) =>
        var p, t := s.pending[r], s.(pending := s.pending - {r});
        if p.found.None? then Inserted(t, p.pw)
        else if p.found.value !in s.rows || s.rows[p.found.value].userID != p.pw.userID then t
        else
          var id := p.found.value;
          t.(rows := s.rows[id := s.rows[id].(password := p.pw.password, username := p.pw.username)])
      case Rollback(r) => s.(pending := s.pending - {r})
      case Insert(pw) => Inserted(s, pw)
      case Update(pw) =>
        if pw.id !in s.rows || s.rows[pw.id].userID != pw.userID then s
        else if Holder(s.rows - {pw.id}, pw).Some? then s
        else s.(rows := s.rows[pw.id := pw])
      case Delete(id, userID) =>
        if id in s.rows && s.rows[id].userID == userID then s.(rows := s.rows - {id}) else s
  }

  ghost function Exec(steps: seq<Step>): State {
    if steps == [] then State(map[], 1, map[]) else Next(Exec(steps[..|steps| - 1]), steps[|steps| - 1])
  }

  // What a transaction found is still there, and still is its entry.
  ghost predicate Holds(rows: Rows, p: Pending) {
    p.found.Some? ==> p.found.value in rows && SameEntry(rows[p.found.value], p.pw)
  }

  ghost predicate Sound(s: State) {
    && UniqueLabels(s.rows) && IdsMatch(s.rows)
    && (forall id | id in s.rows :: id < s.nextId)
    && (forall r | r in s.pending :: Holds(s.rows, s.pending[r]))
  }

  lemma InsertIsSound(s: State, pw: Password)
    requires Sound(s)
    ensures Sound(Inserted(s, pw))
  {
    var t := Inserted(s, pw);
    forall r | r in t.pending ensures Holds(t.rows, t.pending[r]) {
      assert Holds(s.rows, s.pending[r]);
    }
    if Holder(s.rows, pw).None? {
      forall i, j | i in t.rows && j in t.rows && SameEntry(t.rows[i], t.rows[j]) ensures i == j { }
    }
  }

  lemma UpdateIsSound(s: State, pw: Password)
    requires Sound(s) && Enabled(s, Update(pw))
    ensures Sound(Next(s, Update(pw)))
  {
    var t := Next(s, Update(pw));
    forall r | r in t.pending ensures Holds(t.rows, t.pending[r]) {
      assert Holds(s.rows, s.pending[r]);
    }
    if t.rows != s.rows {
      forall i | i in t.rows && i != pw.id ensures !SameEntry(t.rows[i], pw) { assert i in s.rows - {pw.id}; }
    }
  }

  lemma WriteIsSound(s: State, r: nat)
    requires Sound(s) && r in s.pending
    ensures Sound(Next(s, Write(r)))
  {
    var p, t := s.pending[r], Next(s, Write(r));
    assert Holds(s.rows, p);
    forall x | x in t.pending ensures Holds(s.rows, t.pending[x]) { }
    if p.found.None? {
      InsertIsSound(s.(pending := s.pending - {r}), p.pw);
    } else {
      forall i, j | i in t.rows && j in t.rows && SameEntry(t.rows[i], t.rows[j]) ensures i == j {
        assert SameEntry(s.rows[i], s.rows[j]);
      }
      forall x | x in t.pending ensures Holds(t.rows, t.pending[x]) { assert Holds(s.rows, t.pending[x]); }
    }
  }

  lemma StepIsSound(s: State, step: Step)
    requires Sound(s)
    ensures Sound(Next(s, step))
  {
    if Enabled(s, step) {
      match step
      case Select(_, _) =>
      case Write(r) => WriteIsSound(s, r);
      case Rollback(_) =>
      case Insert(pw) => InsertIsSound(s, pw);
      case Update(pw) => UpdateIsSound(s, pw);
      case Delete(id, _) =>
        forall r | r in s.pending ensures Holds(Next(s, step).rows, s.pending[r]) {
          assert Holds(s.rows, s.pending[r]);
        }
    }
  }

  // Every interleaving of upserts with each other and with the other statements keeps one row per
  // user, name and website.
  lemma {:induction false} EntriesStayUnique(steps: seq<Step>)
    ensures Sound(Exec(steps))
  {
    if steps != [] {
      EntriesStayUnique(steps[..|steps| - 1]);
      StepIsSound(Exec(steps[..|steps| - 1]), steps[|steps| - 1]);
    }
  }

  // Main result: in every interleaving, the write of a transaction is refused exactly when its
  // select found no row and the entry has been taken since; otherwise it does at that instant what
  // an upsert does in one step.
  lemma WriteIsUpsert(steps: seq<Step>, r: nat)
    requires r in Exec(steps).pending
    ensures var s := Exec(steps);
            var p := s.pending[r];
            Next(s, Write(r)).rows ==
              if p.found.None? && Holder(s.rows, p.pw).Some? then s.rows
              else AfterUpsert(s.rows, s.nextId, p.pw)
  {
    EntriesStayUnique(steps);
    var s := Exec(steps);
    var p := s.pending[r];
    assert Holds(s.rows, p);
    if p.found.Some? {
      assert Holder(s.rows, p.pw) == p.found;
    }
  }
}
