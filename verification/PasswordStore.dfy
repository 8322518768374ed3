// The password table and the statements of its repository.
module PasswordStore {
  import opened Wrappers
  import opened PasswordKey

  datatype Password = Password(id: int, password: string, name: string, website: string, username: string, userID: string) {
    function Labels(): Labels { PasswordKey.Labels(name, website, username) }
    function Key(): string { GroupKey(Labels()) }
  }

  type Rows = map<int, Password>

  // The key of the uniqueness constraint that the third migration adds.
  predicate SameEntry(p: Password, q: Password) {
    p.userID == q.userID && p.name == q.name && p.website == q.website
  }

  ghost predicate UniqueLabels(rows: Rows) {
    forall i, j | i in rows && j in rows && SameEntry(rows[i], rows[j]) :: i == j
  }

  ghost predicate IdsMatch(rows: Rows) {
    forall id | id in rows :: rows[id].id == id
  }

  ghost function Holder(rows: Rows, pw: Password): Option<int> {
    if id :| id in rows && SameEntry(rows[id], pw) then Some(id) else None
  }

  // An upsert as one step: the entry gets the new password and username, or a fresh row.
  ghost function AfterUpsert(rows: Rows, nextId: int, pw: Password): Rows {
    match Holder(rows, pw)
    case Some(id) => rows[id := pw.(id := id)]
    case None => rows[nextId := pw.(id := nextId)]
  }

  // All rows of one user, ascending by id.
  ghost predicate Listing(rows: Rows, userID: string, pws: seq<Password>) {
    && (forall i, j | 0 <= i < j < |pws| :: pws[i].id < pws[j].id)
    && (forall i | 0 <= i < |pws| :: pws[i].id in rows && rows[pws[i].id] == pws[i] && pws[i].userID == userID)
    && (forall id | id in rows && rows[id].userID == userID :: rows[id] in pws)
  }

  // `up(n)` says whether the database answers the n-th statement.
  class PasswordRepo {
    var rows: Rows
    var nextId: int
    var statements: nat
    const up: nat -> bool

    ghost predicate Valid()
      reads this
    {
      IdsMatch(rows) && 1 <= nextId && forall id | id in rows :: 1 <= id < nextId
    }

    constructor (up: nat -> bool)
      ensures Valid() && rows == map[] && this.up == up && statements == 0
    {
      rows := map[];
      nextId := 1;
      statements := 0;
      this.up := up;
    }

    method FindByUserID(userID: string) returns (ok: bool, pws: seq<Password>)
      requires Valid()
      modifies this`statements
      ensures ok == up(old(statements)) && statements == old(statements) + 1
      ensures ok ==> Listing(rows, userID, pws)
    {
      ok := up(statements);
      statements := statements + 1;
      pws := [];
      for id := 1 to nextId
        invariant statements == old(statements) + 1
        invariant forall i, j | 0 <= i < j < |pws| :: pws[i].id < pws[j].id
        invariant forall i | 0 <= i < |pws| :: pws[i].id in rows && pws[i].id < id && rows[pws[i].id] == pws[i] && pws[i].userID == userID
        invariant forall x | x in rows && x < id && rows[x].userID == userID :: rows[x] in pws
      {
        if id in rows && rows[id].userID == userID {
          pws := pws + [rows[id]];
        }
      }
    }

    method FindByID(id: int) returns (ok: bool, pw: Option<Password>)
      modifies this`statements
      ensures ok == up(old(statements)) && statements == old(statements) + 1
      ensures ok ==> pw == Lookup(rows, id)
    {
      ok := up(statements);
      statements := statements + 1;
      pw := Lookup(rows, id);
    }

    // ok is false for a database error and for a row that is not there.
    method Delete(id: int, userID: string) returns (ok: bool)
      modifies this`rows, this`statements
      ensures statements == old(statements) + 1
      ensures ok <==> up(old(statements)) && id in old(rows) && old(rows)[id].userID == userID
      ensures rows == if ok then old(rows) - {id} else old(rows)
    {
      ok := up(statements) && id in rows && rows[id].userID == userID;
      statements := statements + 1;
      if ok {
        rows := rows - {id};
      }
    }

    // Upsert with nobody in between; PasswordUpserts takes its statements apart.
    method Upsert(pw: Password) returns (ok: bool, id: int)
      requires Valid() && UniqueLabels(rows)
      modifies this
      ensures Valid() && UniqueLabels(rows) && ok == up(old(statements))
      ensures !ok ==> rows == old(rows)
      ensures ok ==> rows == AfterUpsert(old(rows), old(nextId), pw)
      ensures ok ==> rows == old(rows)[id := pw.(id := id)]
      ensures ok ==> if id in old(rows) then SameEntry(old(rows)[id], pw) else id == old(nextId)
    {
      ok, id := up(statements), nextId;
      statements := statements + 1;
      if !ok { return; }
      if found :| found in rows && SameEntry(rows[found], pw) {
        id := found;
      } else {
        nextId := nextId + 1;
      }
      rows := rows[id := pw.(id := id)];
    }
  }
}
