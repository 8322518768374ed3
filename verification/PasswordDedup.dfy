// Finding and removing duplicate password entries of a user.
module PasswordDedup {
  import opened Wrappers
  import opened PasswordKey
  import opened PasswordStore

  datatype DuplicateGroup = DuplicateGroup(name: string, website: string, username: string, count: int, ids: seq<int>)

  datatype DuplicateAnalysis = DuplicateAnalysis(groups: seq<DuplicateGroup>, total: int)

  // ------------------------------------------------------------------ grouping, as a specification

  function IdsWith(pws: seq<Password>, key: string): seq<int> {
    if pws == [] then []
    else
      var last := pws[|pws| - 1];
      IdsWith(pws[..|pws| - 1], key) + if last.Key() == key then [last.id] else []
  }

  // The distinct keys in the order of their first occurrence.
  function KeysInOrder(pws: seq<Password>): seq<string> {
    if pws == [] then []
    else
      var keys, key := KeysInOrder(pws[..|pws| - 1]), pws[|pws| - 1].Key();
      if key in keys then keys else keys + [key]
  }

  // The labels shown for a key are those of its first row.
  function FirstWith(pws: seq<Password>, key: string): Labels
    requires key in KeysInOrder(pws)
  {
    var before := pws[..|pws| - 1];
    if key in KeysInOrder(before) then FirstWith(before, key) else pws[|pws| - 1].Labels()
  }

  function GroupFor(pws: seq<Password>, key: string): DuplicateGroup
    requires key in KeysInOrder(pws)
  {
    var l, ids := FirstWith(pws, key), IdsWith(pws, key);
    DuplicateGroup(l.name, l.website, l.username, |ids|, ids)
  }

  // The keys among these that more than one row has.
  function Repeated(pws: seq<Password>, keys: seq<string>): seq<string> {
    if keys == [] then []
    else
      var last := keys[|keys| - 1];
      Repeated(pws, keys[..|keys| - 1]) + if |IdsWith(pws, last)| > 1 then [last] else []
  }

  function SurplusOf(pws: seq<Password>, keys: seq<string>): int {
    if keys == [] then 0
    else
      var n := |IdsWith(pws, keys[|keys| - 1])|;
      SurplusOf(pws, keys[..|keys| - 1]) + if n > 1 then n - 1 else 0
  }

  ghost predicate AnalyzedUpTo(pws: seq<Password>, keys: seq<string>, result: DuplicateAnalysis) {
    var repeated := Repeated(pws, keys);
    && |result.groups| == |repeated|
    && (forall i | 0 <= i < |repeated| :: repeated[i] in KeysInOrder(pws) && result.groups[i] == GroupFor(pws, repeated[i]))
    && result.total == SurplusOf(pws, keys)
  }

  ghost predicate Analyzes(pws: seq<Password>, result: DuplicateAnalysis) {
    AnalyzedUpTo(pws, KeysInOrder(pws), result)
  }

  // ------------------------------------------------------------------ what the grouping means

  lemma {:induction false} IdsWithAre(pws: seq<Password>, key: string, id: int)
    ensures id in IdsWith(pws, key) <==> exists i :: 0 <= i < |pws| && pws[i].id == id && pws[i].Key() == key
  {
    if pws != [] {
      var before, last := pws[..|pws| - 1], pws[|pws| - 1];
      IdsWithAre(before, key, id);
      if id in IdsWith(before, key) {
        var i :| 0 <= i < |before| && before[i].id == id && before[i].Key() == key;
        assert pws[i] == before[i];
      }
      if i :| 0 <= i < |pws| && pws[i].id == id && pws[i].Key() == key && i < |pws| - 1 {
        assert before[i] == pws[i];
      }
      if last.Key() == key && last.id == id {
        assert pws[|pws| - 1] == last;
      }
    }
  }

  predicate Ascending(ids: seq<int>) {
    forall i, j | 0 <= i < j < |ids| :: ids[i] < ids[j]
  }

  lemma {:induction false} IdsAscend(pws: seq<Password>, key: string)
    requires forall i, j | 0 <= i < j < |pws| :: pws[i].id < pws[j].id
    ensures Ascending(IdsWith(pws, key))
  {
    if pws != [] {
      var before, last := pws[..|pws| - 1], pws[|pws| - 1];
      IdsAscend(before, key);
      forall id | id in IdsWith(before, key) ensures id < last.id {
        IdsWithAre(before, key, id);
        var i :| 0 <= i < |before| && before[i].id == id;
        assert pws[i] == before[i];
      }
      var ids := IdsWith(before, key);
      forall i | 0 <= i < |ids| ensures ids[i] < last.id { assert ids[i] in ids; }
    }
  }

  predicate Distinct(keys: seq<string>) {
    forall i, j | 0 <= i < j < |keys| :: keys[i] != keys[j]
  }

  lemma {:induction false} KeysAreDistinct(pws: seq<Password>)
    ensures Distinct(KeysInOrder(pws))
    ensures forall key :: key in KeysInOrder(pws) <==> IdsWith(pws, key) != []
  {
    if pws != [] {
      KeysAreDistinct(pws[..|pws| - 1]);
    }
  }

  function SizesOf(pws: seq<Password>, keys: seq<string>): int {
    if keys == [] then 0 else SizesOf(pws, keys[..|keys| - 1]) + |IdsWith(pws, keys[|keys| - 1])|
  }

  // One more row makes exactly one of these groups one larger.
  lemma {:induction false} OneMoreRow(pws: seq<Password>, keys: seq<string>)
    requires pws != [] && Distinct(keys)
    ensures SizesOf(pws, keys) == SizesOf(pws[..|pws| - 1], keys) + if pws[|pws| - 1].Key() in keys then 1 else 0
    decreases |keys|
  {
    if keys != [] {
      var before, last := keys[..|keys| - 1], keys[|keys| - 1];
      OneMoreRow(pws, before);
      assert keys == before + [last];
      assert last !in before;
    }
  }

  lemma {:induction false} GroupsPartition(pws: seq<Password>)
    ensures SizesOf(pws, KeysInOrder(pws)) == |pws|
  {
    if pws != [] {
      var before, key := pws[..|pws| - 1], pws[|pws| - 1].Key();
      GroupsPartition(before);
      KeysAreDistinct(pws);
      KeysAreDistinct(before);
      OneMoreRow(pws, KeysInOrder(pws));
      if key !in KeysInOrder(before) {
        assert KeysInOrder(pws)[..|KeysInOrder(before)|] == KeysInOrder(before);
        assert IdsWith(before, key) == [];
      }
    }
  }

  lemma {:induction false} SurplusIsSizeMinusCount(pws: seq<Password>, keys: seq<string>)
    requires forall key | key in keys :: IdsWith(pws, key) != []
    ensures SurplusOf(pws, keys) == SizesOf(pws, keys) - |keys|
    decreases |keys|
  {
    if keys != [] {
      var before, last := keys[..|keys| - 1], keys[|keys| - 1];
      assert last in keys;
      assert forall key | key in before :: key in keys;
      SurplusIsSizeMinusCount(pws, before);
    }
  }

  // ids lists exactly the rows of the user with this key.
  ghost predicate AreGroup(rows: Rows, userID: string, key: string, ids: seq<int>) {
    forall id :: id in ids <==> id in rows && rows[id].userID == userID && rows[id].Key() == key
  }

  lemma GroupIdsAre(rows: Rows, userID: string, pws: seq<Password>, key: string)
    requires IdsMatch(rows) && Listing(rows, userID, pws)
    ensures Ascending(IdsWith(pws, key)) && AreGroup(rows, userID, key, IdsWith(pws, key))
  {
    IdsAscend(pws, key);
    forall id ensures id in IdsWith(pws, key) <==> id in rows && rows[id].userID == userID && rows[id].Key() == key {
      IdsWithAre(pws, key, id);
      if id in rows && rows[id].userID == userID {
        var i :| 0 <= i < |pws| && pws[i] == rows[id];
      }
    }
  }

  lemma {:induction false} KeysAreOfRows(pws: seq<Password>, key: string)
    ensures key in KeysInOrder(pws) <==> exists p :: 0 <= p < |pws| && pws[p].Key() == key
  {
    if pws != [] {
      var before := pws[..|pws| - 1];
      KeysAreOfRows(before, key);
      if p :| 0 <= p < |before| && before[p].Key() == key {
        assert pws[p].Key() == key;
      }
      if p :| 0 <= p < |pws| && pws[p].Key() == key && p < |before| {
        assert before[p].Key() == key;
      }
    }
  }

  // A row with the j-th key comes after some row with the i-th key.
  ghost predicate Preceded(pws: seq<Password>, key: string, q: nat) {
    exists p :: 0 <= p < q <= |pws| && pws[p].Key() == key
  }

  lemma {:induction false} FirstRowsInOrder(pws: seq<Password>, i: nat, j: nat, q: nat)
    requires i < j < |KeysInOrder(pws)| && q < |pws| && pws[q].Key() == KeysInOrder(pws)[j]
    ensures Preceded(pws, KeysInOrder(pws)[i], q)
  {
    var n := |pws| - 1;
    var before, keys := pws[..n], KeysInOrder(pws);
    assert i < |KeysInOrder(before)|;
    if q < n {
      KeysAreOfRows(before, keys[j]);
      assert before[q].Key() == keys[j];
      KeysAreDistinct(pws);
      FirstRowsInOrder(before, i, j, q);
      var p :| 0 <= p < q && before[p].Key() == keys[i];
      assert pws[p].Key() == keys[i];
    } else {
      KeysAreOfRows(before, keys[i]);
      var p :| 0 <= p < n && before[p].Key() == keys[i];
      assert pws[p].Key() == keys[i];
    }
  }

  // Main result on grouping: the groups, singletons included, partition the rows of the user, their
  // ids ascend, keys are in the order of their first rows, and the total is the number of rows minus
  // the number of distinct keys.
  lemma GroupingIsCorrect(rows: Rows, userID: string, pws: seq<Password>)
    requires IdsMatch(rows) && Listing(rows, userID, pws)
    ensures Distinct(KeysInOrder(pws))
    ensures forall key :: Ascending(IdsWith(pws, key)) && (key in KeysInOrder(pws) <==> IdsWith(pws, key) != [])
    ensures forall key :: AreGroup(rows, userID, key, IdsWith(pws, key))
    ensures forall i: nat, j: nat, q: nat | i < j < |KeysInOrder(pws)| && q < |pws| && pws[q].Key() == KeysInOrder(pws)[j] ::
              Preceded(pws, KeysInOrder(pws)[i], q)
    ensures SurplusOf(pws, KeysInOrder(pws)) == |pws| - |KeysInOrder(pws)|
  {
    KeysAreDistinct(pws);
    forall key ensures Ascending(IdsWith(pws, key)) && AreGroup(rows, userID, key, IdsWith(pws, key)) {
      GroupIdsAre(rows, userID, pws, key);
    }
    forall i: nat, j: nat, q: nat | i < j < |KeysInOrder(pws)| && q < |pws| && pws[q].Key() == KeysInOrder(pws)[j]
      ensures Preceded(pws, KeysInOrder(pws)[i], q)
    {
      FirstRowsInOrder(pws, i, j, q);
    }
    GroupsPartition(pws);
    SurplusIsSizeMinusCount(pws, KeysInOrder(pws));
  }

  // The group of a key shows the labels of its row of least id.
  lemma {:induction false} LabelsOfFirst(pws: seq<Password>, key: string)
    requires key in KeysInOrder(pws)
    ensures IdsWith(pws, key) != []
    ensures exists p :: 0 <= p < |pws| && pws[p].id == IdsWith(pws, key)[0] && pws[p].Labels() == FirstWith(pws, key) && pws[p].Key() == key
  {
    var n := |pws| - 1;
    var before := pws[..n];
    KeysAreDistinct(pws);
    KeysAreDistinct(before);
    if key in KeysInOrder(before) {
      LabelsOfFirst(before, key);
      var p :| 0 <= p < n && before[p].id == IdsWith(before, key)[0] && before[p].Labels() == FirstWith(before, key) && before[p].Key() == key;
      assert pws[p] == before[p];
    } else {
      assert IdsWith(before, key) == [] && pws[n].Key() == key;
    }
  }

  predicate Places(rows: Rows, userID: string, g: DuplicateGroup, id: int) {
    id in rows && rows[id].userID == userID
    && rows[id].name + "::" + rows[id].website + "::" + rows[id].username == g.name + "::" + g.website + "::" + g.username
  }

  // A reported group, in terms of the table alone.
  ghost predicate IsGroup(rows: Rows, userID: string, g: DuplicateGroup) {
    && g.count == |g.ids| >= 2 && Ascending(g.ids)
    && (forall id :: id in g.ids <==> Places(rows, userID, g, id))
    && g.ids[0] in rows && rows[g.ids[0]].name == g.name && rows[g.ids[0]].website == g.website && rows[g.ids[0]].username == g.username
  }

  lemma GroupIsGroup(rows: Rows, userID: string, pws: seq<Password>, key: string)
    requires IdsMatch(rows) && Listing(rows, userID, pws) && key in KeysInOrder(pws) && |IdsWith(pws, key)| > 1
    ensures IsGroup(rows, userID, GroupFor(pws, key)) && forall id :: id in GroupFor(pws, key).ids ==> rows[id].Key() == key
  {
    GroupIdsAre(rows, userID, pws, key);
    LabelsOfFirst(pws, key);
    var ids, g := IdsWith(pws, key), GroupFor(pws, key);
    var p :| 0 <= p < |pws| && pws[p].id == ids[0] && pws[p].Labels() == FirstWith(pws, key) && pws[p].Key() == key;
    assert ids[0] in ids && rows[ids[0]] == pws[p];
    assert key == g.name + "::" + g.website + "::" + g.username;
    forall id ensures id in g.ids <==> Places(rows, userID, g, id) {
      assert id in rows ==> rows[id].Key() == rows[id].name + "::" + rows[id].website + "::" + rows[id].username;
    }
  }

  lemma PairIsReported(rows: Rows, userID: string, pws: seq<Password>, result: DuplicateAnalysis, id: int, other: int)
    requires IdsMatch(rows) && Listing(rows, userID, pws) && Analyzes(pws, result)
    requires id in rows && other in rows && id != other && SamePlace(rows[id], rows[other]) && rows[id].userID == userID
    ensures Reported(result, id)
  {
    var keys, key := Repeated(pws, KeysInOrder(pws)), rows[id].Key();
    SameKeyIsSamePlace(rows[id], rows[other]);
    TwoOfAKeyAreRepeated(rows, userID, pws, id, other);
    GroupIdsAre(rows, userID, pws, key);
    var ids := IdsWith(pws, key);
    var i :| 0 <= i < |keys| && keys[i] == key;
    assert result.groups[i].ids == ids;
  }

  predicate Reported(result: DuplicateAnalysis, id: int) {
    exists i | 0 <= i < |result.groups| :: id in result.groups[i].ids
  }

  // Main result on the analysis, in terms of the table: it reports groups of two or more rows that
  // agree in owner and key, all of each, under the labels of the row of least id; and every row that
  // agrees with another one is reported.
  lemma AnalysisIsCorrect(rows: Rows, userID: string, pws: seq<Password>, result: DuplicateAnalysis)
    requires IdsMatch(rows) && Listing(rows, userID, pws) && Analyzes(pws, result)
    ensures forall i | 0 <= i < |result.groups| :: IsGroup(rows, userID, result.groups[i])
    ensures forall id, other | id in rows && other in rows && id != other && SamePlace(rows[id], rows[other]) && rows[id].userID == userID ::
              Reported(result, id)
    ensures result.total == |pws| - |KeysInOrder(pws)|
  {
    forall id, other | id in rows && other in rows && id != other && SamePlace(rows[id], rows[other]) && rows[id].userID == userID
      ensures Reported(result, id)
    {
      PairIsReported(rows, userID, pws, result, id, other);
    }
    GroupsAreGroups(rows, userID, pws, result);
    KeysAreDistinct(pws);
    GroupsPartition(pws);
    SurplusIsSizeMinusCount(pws, KeysInOrder(pws));
  }

  lemma GroupsAreGroups(rows: Rows, userID: string, pws: seq<Password>, result: DuplicateAnalysis)
    requires IdsMatch(rows) && Listing(rows, userID, pws) && Analyzes(pws, result)
    ensures forall i | 0 <= i < |result.groups| :: IsGroup(rows, userID, result.groups[i])
  {
    var keys := Repeated(pws, KeysInOrder(pws));
    KeysAreDistinct(pws);
    RepeatedAre(pws, KeysInOrder(pws));
    forall i | 0 <= i < |result.groups| ensures IsGroup(rows, userID, result.groups[i]) {
      assert keys[i] in keys;
      GroupIsGroup(rows, userID, pws, keys[i]);
    }
  }

  // ------------------------------------------------------------------ redundancy

  // What a stored password holds: a text, or something that cannot be opened.
  datatype Secret = Text(plain: string) | Sealed(stored: string)

  // AES-GCM is library code.
  datatype Vault = Vault(keyed: bool, open: string -> Option<string>) {
    function Holds(stored: string): Secret {
      if !keyed || stored == "" then Text(stored)
      else if open(stored).Some? then Text(open(stored).value)
      else Sealed(stored)
    }

    // What the service compares: a password that cannot be opened reads as empty.
    function Plain(stored: string): string {
      if Holds(stored).Text? then Holds(stored).plain else ""
    }
  }

  predicate SameGroup(p: Password, q: Password) {
    p.userID == q.userID && p.Key() == q.Key()
  }

  ghost predicate IsGreatest(rows: Rows, id: int) {
    id in rows && forall other | other in rows && SameGroup(rows[other], rows[id]) :: other <= id
  }

  // The greatest row of the group of id is another one and reads the same.
  ghost predicate RedundantTo(rows: Rows, vault: Vault, id: int, kept: int) {
    && id in rows && IsGreatest(rows, kept) && id < kept
    && SameGroup(rows[id], rows[kept]) && vault.Plain(rows[id].password) == vault.Plain(rows[kept].password)
  }

  ghost predicate Redundant(rows: Rows, vault: Vault, id: int) {
    exists kept :: RedundantTo(rows, vault, id, kept)
  }

  // What is left when every redundant row of the user is gone.
  ghost function Pruned(rows: Rows, vault: Vault, userID: string): Rows {
    map id | id in rows && !(rows[id].userID == userID && Redundant(rows, vault, id)) :: rows[id]
  }

  // What a run may leave when some of its statements fail.
  ghost predicate PartlyPruned(rows: Rows, left: Rows, vault: Vault, userID: string) {
    && left.Keys <= rows.Keys
    && (forall id | id in left :: left[id] == rows[id])
    && (forall id | id in rows && id !in left :: rows[id].userID == userID && Redundant(rows, vault, id))
  }

  lemma GreatestIsUnique(rows: Rows, a: int, b: int)
    requires IsGreatest(rows, a) && IsGreatest(rows, b) && SameGroup(rows[a], rows[b])
    ensures a == b
  {
  }

  lemma GreatestSurvives(rows: Rows, left: Rows, vault: Vault, userID: string, id: int)
    requires PartlyPruned(rows, left, vault, userID) && IsGreatest(rows, id)
    ensures id in left && IsGreatest(left, id)
  {
    assert forall kept :: !RedundantTo(rows, vault, id, kept);
  }

  // ------------------------------------------------------------------ the service

  // sort.Slice with a descending order, as a function.
  function InsertDescending(x: int, ids: seq<int>): seq<int> {
    if ids == [] || x > ids[0] then [x] + ids else [ids[0]] + InsertDescending(x, ids[1..])
  }

  function SortDescending(ids: seq<int>): seq<int> {
    if ids == [] then [] else InsertDescending(ids[0], SortDescending(ids[1..]))
  }

  predicate Descending(ids: seq<int>) {
    forall i, j | 0 <= i < j < |ids| :: ids[i] > ids[j]
  }

  lemma {:induction false} InsertDescendingSorts(x: int, ids: seq<int>)
    requires Descending(ids) && x !in ids
    ensures Descending(InsertDescending(x, ids))
    ensures forall y :: y in InsertDescending(x, ids) <==> y == x || y in ids
  {
    if ids != [] && x < ids[0] {
      InsertDescendingSorts(x, ids[1..]);
      assert ids == [ids[0]] + ids[1..];
      var rest := InsertDescending(x, ids[1..]);
      forall k | 0 <= k < |rest| ensures rest[k] < ids[0] {
        assert rest[k] in rest;
      }
    }
  }

  // The ids of a group are distinct, so the sorted list is the one descending list of them.
  lemma {:induction false} SortDescendingSorts(ids: seq<int>)
    requires Ascending(ids)
    ensures Descending(SortDescending(ids))
    ensures forall y :: y in SortDescending(ids) <==> y in ids
  {
    if ids != [] {
      SortDescendingSorts(ids[1..]);
      InsertDescendingSorts(ids[0], SortDescending(ids[1..]));
      assert ids == [ids[0]] + ids[1..];
    }
  }

  // ------------------------------------------------------------------ the loops of the service

  ghost predicate Grouped(groups: map<string, DuplicateGroup>, pws: seq<Password>) {
    && (forall key :: key in groups <==> key in KeysInOrder(pws))
    && (forall key | key in KeysInOrder(pws) :: groups[key] == GroupFor(pws, key))
  }

  lemma GroupKnown(pws: seq<Password>, pw: Password, key: string)
    requires key in KeysInOrder(pws)
    ensures key in KeysInOrder(pws + [pw])
    ensures var g := GroupFor(pws, key);
            GroupFor(pws + [pw], key) == if pw.Key() == key then g.(count := g.count + 1, ids := g.ids + [pw.id]) else g
  {
    assert (pws + [pw])[..|pws|] == pws;
  }

  lemma GroupNew(pws: seq<Password>, pw: Password)
    requires pw.Key() !in KeysInOrder(pws)
    ensures KeysInOrder(pws + [pw]) == KeysInOrder(pws) + [pw.Key()]
    ensures GroupFor(pws + [pw], pw.Key()) == DuplicateGroup(pw.name, pw.website, pw.username, 1, [pw.id])
  {
    assert (pws + [pw])[..|pws|] == pws;
    KeysAreDistinct(pws);
    assert IdsWith(pws, pw.Key()) == [];
  }

  lemma GroupedExtends(groups: map<string, DuplicateGroup>, pws: seq<Password>, pw: Password)
    requires Grouped(groups, pws)
    ensures var key := pw.Key();
            if key in groups then
              var g := groups[key];
              Grouped(groups[key := g.(count := g.count + 1, ids := g.ids + [pw.id])], pws + [pw])
              && KeysInOrder(pws + [pw]) == KeysInOrder(pws)
            else
              Grouped(groups[key := DuplicateGroup(pw.name, pw.website, pw.username, 1, [pw.id])], pws + [pw])
              && KeysInOrder(pws + [pw]) == KeysInOrder(pws) + [key]
  {
    assert (pws + [pw])[..|pws|] == pws;
    forall key | key in KeysInOrder(pws)
      ensures key in KeysInOrder(pws + [pw])
      ensures var g := GroupFor(pws, key);
              GroupFor(pws + [pw], key) == if pw.Key() == key then g.(count := g.count + 1, ids := g.ids + [pw.id]) else g
    {
      GroupKnown(pws, pw, key);
    }
    if pw.Key() !in groups {
      GroupNew(pws, pw);
    }
  }

  // The two loops of AnalyzeDuplicates.
  method GroupRows(pws: seq<Password>) returns (groups: map<string, DuplicateGroup>, order: seq<string>)
    ensures order == KeysInOrder(pws) && Grouped(groups, pws)
  {
    groups, order := map[], [];
    for i := 0 to |pws|
      invariant order == KeysInOrder(pws[..i]) && Grouped(groups, pws[..i])
    {
      var pw := pws[i];
      assert pws[..i + 1] == pws[..i] + [pw];
      GroupedExtends(groups, pws[..i], pw);
      var key := pw.Key();
      if key in groups {
        var g := groups[key];
        groups := groups[key := g.(count := g.count + 1, ids := g.ids + [pw.id])];
      } else {
        order := order + [key];
        groups := groups[key := DuplicateGroup(pw.name, pw.website, pw.username, 1, [pw.id])];
      }
    }
    assert pws[..|pws|] == pws;
  }

  method CollectRepeated(ghost pws: seq<Password>, groups: map<string, DuplicateGroup>, order: seq<string>)
    returns (analysis: DuplicateAnalysis)
    requires order == KeysInOrder(pws) && Grouped(groups, pws)
    ensures Analyzes(pws, analysis)
  {
    analysis := DuplicateAnalysis([], 0);
    for i := 0 to |order|
      invariant AnalyzedUpTo(pws, order[..i], analysis)
    {
      var g := groups[order[i]];
      assert order[..i + 1][..i] == order[..i];
      if g.count > 1 {
        analysis := DuplicateAnalysis(analysis.groups + [g], analysis.total + g.count - 1);
      }
    }
    assert order[..|order|] == order;
  }

  class DedupService {
    const repo: PasswordRepo
    const vault: Vault

    constructor (repo: PasswordRepo, vault: Vault)
      ensures this.repo == repo && this.vault == vault
    {
      this.repo := repo;
      this.vault := vault;
    }

    // None: the listing failed.
    method AnalyzeDuplicates(userID: string) returns (result: Option<DuplicateAnalysis>, ghost listing: seq<Password>)
      requires repo.Valid()
      modifies repo`statements
      ensures repo.statements == old(repo.statements) + 1
      ensures result.Some? <==> repo.up(old(repo.statements))
      ensures result.Some? ==> Listing(repo.rows, userID, listing) && Analyzes(listing, result.value)
    {
      var ok, pws := repo.FindByUserID(userID);
      listing := pws;
      if !ok { return None, listing; }
      var groups, order := GroupRows(pws);
      var analysis := CollectRepeated(pws, groups, order);
      return Some(analysis), listing;
    }

    // Returns how many rows were removed, or None when the analysis failed.
    method RemoveDuplicates(userID: string) returns (removed: Option<int>)
      requires repo.Valid()
      modifies repo`rows, repo`statements
      ensures repo.Valid()
      ensures removed.Some? <==> repo.up(old(repo.statements))
      ensures removed == None ==> repo.rows == old(repo.rows)
      ensures PartlyPruned(old(repo.rows), repo.rows, vault, userID)
      ensures Entries(repo.rows, vault) == Entries(old(repo.rows), vault)
      ensures removed.Some? ==> removed.value == |old(repo.rows)| - |repo.rows|
      ensures (forall n :: repo.up(n)) ==> repo.rows == Pruned(old(repo.rows), vault, userID)
    {
      var analysis, pws := AnalyzeDuplicates(userID);
      if analysis == None { return None; }
      var count := PruneGroups(analysis.value, userID, pws);
      DedupKeepsInformation(old(repo.rows), repo.rows, vault, userID);
      if forall n :: repo.up(n) {
        AllGroupsPruned(old(repo.rows), repo.rows, vault, userID, pws, Repeated(pws, KeysInOrder(pws)));
      }
      return Some(count);
    }

    method PruneGroups(analysis: DuplicateAnalysis, userID: string, ghost pws: seq<Password>) returns (count: int)
      requires repo.Valid() && Listing(repo.rows, userID, pws) && Analyzes(pws, analysis)
      modifies repo`rows, repo`statements
      ensures repo.Valid() && PartlyPruned(old(repo.rows), repo.rows, vault, userID)
      ensures count == |old(repo.rows)| - |repo.rows|
      ensures (forall n :: repo.up(n)) ==> GroupsPruned(old(repo.rows), repo.rows, vault, userID, Repeated(pws, KeysInOrder(pws)))
    {
      ghost var rows := repo.rows;
      ghost var keys := Repeated(pws, KeysInOrder(pws));
      var groups := analysis.groups;
      count := 0;
      for i := 0 to |groups|
        invariant repo.Valid() && count == |rows| - |repo.rows|
        invariant PartlyPruned(rows, repo.rows, vault, userID) && TouchedOnly(rows, repo.rows, keys[..i])
        invariant (forall n :: repo.up(n)) ==> GroupsPruned(rows, repo.rows, vault, userID, keys[..i])
      {
        GroupIsReady(rows, repo.rows, userID, pws, analysis, i, keys);
        ghost var before := repo.rows;
        var n := PruneGroup(groups[i].ids, userID, rows, keys[i]);
        count := count + n;
        TouchedOneMore(rows, before, repo.rows, vault, userID, keys, i);
      }
      assert keys[..|groups|] == keys;
    }

    // One group: keep the greatest id and remove the others that hold the same password.
    method PruneGroup(ids: seq<int>, userID: string, ghost rows: Rows, ghost key: string) returns (removed: int)
      requires repo.Valid() && PartlyPruned(rows, repo.rows, vault, userID)
      requires Ascending(ids) && ids != [] && AreGroup(rows, userID, key, ids)
      requires Untouched(rows, repo.rows, key)
      modifies repo`rows, repo`statements
      ensures repo.Valid() && PartlyPruned(rows, repo.rows, vault, userID)
      ensures removed == |old(repo.rows)| - |repo.rows| && repo.rows.Keys <= old(repo.rows).Keys
      ensures forall id | id in rows && rows[id].Key() != key :: id in repo.rows <==> id in old(repo.rows)
      ensures (forall n :: repo.up(n)) ==> GroupPruned(rows, repo.rows, vault, userID, key)
    {
      removed := 0;
      var sorted := SortDescending(ids);
      SortDescendingSorts(ids);
      var greatest := sorted[0];
      GreatestOfGroup(rows, userID, key, sorted);
      GreatestSurvives(rows, repo.rows, vault, userID, greatest);
      var ok, kept := repo.FindByID(greatest);
      if !ok || kept.None? { return; }
      removed := RemoveCopies(sorted, userID, vault.Plain(kept.value.password), rows, key);
      if forall n :: repo.up(n) {
        GroupIsPruned(rows, repo.rows, vault, userID, key, sorted);
      }
    }

    method RemoveCopies(sorted: seq<int>, userID: string, keptPlain: string, ghost rows: Rows, ghost key: string) returns (removed: int)
      requires repo.Valid() && PartlyPruned(rows, repo.rows, vault, userID)
      requires Descending(sorted) && sorted != [] && IsGreatest(rows, sorted[0]) && keptPlain == vault.Plain(rows[sorted[0]].password)
      requires forall i | 0 <= i < |sorted| :: sorted[i] in repo.rows && rows[sorted[i]].userID == userID
                                               && rows[sorted[i]].Key() == key && SameGroup(rows[sorted[i]], rows[sorted[0]])
      modifies repo`rows, repo`statements
      ensures repo.Valid() && PartlyPruned(rows, repo.rows, vault, userID)
      ensures removed == |old(repo.rows)| - |repo.rows| && repo.rows.Keys <= old(repo.rows).Keys
      ensures forall id | id in old(repo.rows) && rows[id].Key() != key :: id in repo.rows
      ensures (forall n :: repo.up(n)) ==> CopiesGone(rows, repo.rows, vault, sorted, |sorted|)
    {
      removed := 0;
      for i := 1 to |sorted|
        invariant repo.Valid() && PartlyPruned(rows, repo.rows, vault, userID)
        invariant removed == |old(repo.rows)| - |repo.rows| && repo.rows.Keys <= old(repo.rows).Keys
        invariant forall id | id in old(repo.rows) && id !in repo.rows :: rows[id].Key() == key
        invariant forall j | i <= j < |sorted| :: sorted[j] in repo.rows
        invariant (forall n :: repo.up(n)) ==> CopiesGone(rows, repo.rows, vault, sorted, i)
      {
        ghost var before := repo.rows;
        var n := RemoveIfSame(sorted[i], userID, keptPlain, rows, sorted[0]);
        OneMoreGone(rows, before, repo.rows, vault, sorted, i);
        removed := removed + n;
      }
    }

    method RemoveIfSame(id: int, userID: string, keptPlain: string, ghost rows: Rows, ghost greatest: int) returns (n: int)
      requires repo.Valid() && PartlyPruned(rows, repo.rows, vault, userID)
      requires id in repo.rows && rows[id].userID == userID && IsGreatest(rows, greatest) && id < greatest
      requires SameGroup(rows[id], rows[greatest]) && keptPlain == vault.Plain(rows[greatest].password)
      modifies repo`rows, repo`statements
      ensures repo.Valid() && PartlyPruned(rows, repo.rows, vault, userID)
      ensures repo.rows == old(repo.rows) || repo.rows == old(repo.rows) - {id}
      ensures n == |old(repo.rows)| - |repo.rows|
      ensures (forall n :: repo.up(n)) && RedundantTo(rows, vault, id, greatest) ==> id !in repo.rows
    {
      var found, pw := repo.FindByID(id);
      if !found || pw.None? { return 0; }
      if vault.Plain(pw.value.password) != keptPlain { return 0; }
      assert RedundantTo(rows, vault, id, greatest);
      var deleted := repo.Delete(id, userID);
      assert deleted ==> old(repo.rows).Keys == repo.rows.Keys + {id};
      n := if deleted then 1 else 0;
    }
  }

  // The copies before position i that hold what the kept row holds are gone.
  ghost predicate CopiesGone(rows: Rows, left: Rows, vault: Vault, sorted: seq<int>, i: nat)
    requires i <= |sorted| && sorted != []
  {
    forall j | 1 <= j < i && RedundantTo(rows, vault, sorted[j], sorted[0]) :: sorted[j] !in left
  }

  lemma OneMoreGone(rows: Rows, before: Rows, left: Rows, vault: Vault, sorted: seq<int>, i: nat)
    requires 1 <= i < |sorted| && left.Keys <= before.Keys
    ensures CopiesGone(rows, before, vault, sorted, i) && (RedundantTo(rows, vault, sorted[i], sorted[0]) ==> sorted[i] !in left) ==>
              CopiesGone(rows, left, vault, sorted, i + 1)
  {
  }

  // Only rows with one of these keys have been removed so far.
  ghost predicate TouchedOnly(rows: Rows, left: Rows, keys: seq<string>) {
    forall id | id in rows && id !in left :: rows[id].Key() in keys
  }

  ghost predicate Untouched(rows: Rows, left: Rows, key: string) {
    forall id | id in rows && id !in left :: rows[id].Key() != key
  }

  lemma NotYet(keys: seq<string>, i: nat)
    requires Distinct(keys) && i < |keys|
    ensures keys[i] in keys && keys[i] !in keys[..i]
  {
  }

  lemma GroupIsReady(rows: Rows, left: Rows, userID: string, pws: seq<Password>, result: DuplicateAnalysis, i: nat, keys: seq<string>)
    requires IdsMatch(rows) && Listing(rows, userID, pws) && Analyzes(pws, result) && i < |result.groups|
    requires keys == Repeated(pws, KeysInOrder(pws)) && TouchedOnly(rows, left, keys[..i])
    ensures var ids := result.groups[i].ids;
            Ascending(ids) && ids != [] && AreGroup(rows, userID, keys[i], ids) && Untouched(rows, left, keys[i])
  {
    KeysAreDistinct(pws);
    RepeatedAre(pws, KeysInOrder(pws));
    NotYet(keys, i);
    GroupIdsAre(rows, userID, pws, keys[i]);
    assert result.groups[i].ids == IdsWith(pws, keys[i]);
  }

  ghost predicate GroupsPruned(rows: Rows, left: Rows, vault: Vault, userID: string, keys: seq<string>) {
    forall j | 0 <= j < |keys| :: GroupPruned(rows, left, vault, userID, keys[j])
  }

  lemma TouchedOneMore(rows: Rows, before: Rows, left: Rows, vault: Vault, userID: string, keys: seq<string>, i: nat)
    requires i < |keys| && TouchedOnly(rows, before, keys[..i]) && left.Keys <= before.Keys
    requires forall id | id in rows && rows[id].Key() != keys[i] :: id in left <==> id in before
    ensures TouchedOnly(rows, left, keys[..i + 1])
    ensures GroupsPruned(rows, before, vault, userID, keys[..i]) && GroupPruned(rows, left, vault, userID, keys[i]) ==>
              GroupsPruned(rows, left, vault, userID, keys[..i + 1])
  {
    assert keys[..i + 1] == keys[..i] + [keys[i]];
    if GroupsPruned(rows, before, vault, userID, keys[..i]) && GroupPruned(rows, left, vault, userID, keys[i]) {
      var upTo := keys[..i + 1];
      forall j | 0 <= j < |upTo| ensures GroupPruned(rows, left, vault, userID, upTo[j]) {
        if j < i {
          assert GroupPruned(rows, before, vault, userID, keys[..i][j]);
        }
      }
    }
  }

  lemma AllGroupsPruned(rows: Rows, left: Rows, vault: Vault, userID: string, pws: seq<Password>, keys: seq<string>)
    requires IdsMatch(rows) && Listing(rows, userID, pws) && PartlyPruned(rows, left, vault, userID)
    requires keys == Repeated(pws, KeysInOrder(pws))
    requires GroupsPruned(rows, left, vault, userID, keys)
    ensures left == Pruned(rows, vault, userID)
  {
    AllRedundantAreRepeated(rows, vault, userID, pws);
    forall id | id in rows && rows[id].userID == userID && Redundant(rows, vault, id) ensures id !in left {
      var j :| 0 <= j < |keys| && keys[j] == rows[id].Key();
      assert GroupPruned(rows, left, vault, userID, keys[j]);
    }
    forall id ensures Lookup(left, id) == Lookup(Pruned(rows, vault, userID), id) { }
    SameRows(left, Pruned(rows, vault, userID));
  }

  lemma SameRows(a: Rows, b: Rows)
    requires forall id :: Lookup(a, id) == Lookup(b, id)
    ensures a == b
  {
    forall id ensures (id in a <==> id in b) && (id in a ==> a[id] == b[id]) {
      assert Lookup(a, id) == Lookup(b, id);
    }
  }

  ghost predicate GroupPruned(rows: Rows, left: Rows, vault: Vault, userID: string, key: string) {
    forall id | id in rows && rows[id].userID == userID && rows[id].Key() == key && Redundant(rows, vault, id) :: id !in left
  }

  lemma GreatestOfGroup(rows: Rows, userID: string, key: string, sorted: seq<int>)
    requires AreGroup(rows, userID, key, sorted) && Descending(sorted) && sorted != []
    ensures IsGreatest(rows, sorted[0])
    ensures forall i | 0 <= i < |sorted| :: sorted[i] in rows && SameGroup(rows[sorted[i]], rows[sorted[0]]) && rows[sorted[i]].userID == userID
  {
    assert sorted[0] in sorted;
    forall i | 0 <= i < |sorted|
      ensures sorted[i] in rows && SameGroup(rows[sorted[i]], rows[sorted[0]]) && rows[sorted[i]].userID == userID
    {
      assert sorted[i] in sorted;
    }
    forall other | other in rows && SameGroup(rows[other], rows[sorted[0]]) ensures other <= sorted[0] {
      assert other in sorted;
    }
  }

  lemma GroupIsPruned(rows: Rows, left: Rows, vault: Vault, userID: string, key: string, sorted: seq<int>)
    requires AreGroup(rows, userID, key, sorted) && Descending(sorted) && sorted != []
    requires CopiesGone(rows, left, vault, sorted, |sorted|)
    ensures GroupPruned(rows, left, vault, userID, key)
  {
    GreatestOfGroup(rows, userID, key, sorted);
    forall id | id in rows && rows[id].userID == userID && rows[id].Key() == key && Redundant(rows, vault, id)
      ensures id !in left
    {
      var other :| RedundantTo(rows, vault, id, other);
      GreatestIsUnique(rows, other, sorted[0]);
      assert id in sorted;
    }
  }

  lemma {:induction false} RepeatedAre(pws: seq<Password>, keys: seq<string>)
    requires Distinct(keys)
    ensures Distinct(Repeated(pws, keys))
    ensures forall key :: key in Repeated(pws, keys) <==> key in keys && |IdsWith(pws, key)| > 1
    decreases |keys|
  {
    if keys != [] {
      var before, last := keys[..|keys| - 1], keys[|keys| - 1];
      RepeatedAre(pws, before);
      assert keys == before + [last];
      assert last !in before;
    }
  }

  // A redundant row shares its key with the row it is redundant to.
  lemma TwoOfAKeyAreRepeated(rows: Rows, userID: string, pws: seq<Password>, id: int, other: int)
    requires IdsMatch(rows) && Listing(rows, userID, pws)
    requires id in rows && other in rows && id != other && rows[id].userID == userID && SameGroup(rows[id], rows[other])
    ensures rows[id].Key() in Repeated(pws, KeysInOrder(pws))
  {
    var key := rows[id].Key();
    KeysAreDistinct(pws);
    RepeatedAre(pws, KeysInOrder(pws));
    GroupIdsAre(rows, userID, pws, key);
    var ids := IdsWith(pws, key);
    assert id in ids && other in ids;
    assert |ids| > 1;
  }

  lemma AllRedundantAreRepeated(rows: Rows, vault: Vault, userID: string, pws: seq<Password>)
    requires IdsMatch(rows) && Listing(rows, userID, pws)
    ensures forall id | id in rows && rows[id].userID == userID && Redundant(rows, vault, id) ::
              rows[id].Key() in Repeated(pws, KeysInOrder(pws))
  {
    forall id | id in rows && rows[id].userID == userID && Redundant(rows, vault, id)
      ensures rows[id].Key() in Repeated(pws, KeysInOrder(pws))
    {
      var kept :| RedundantTo(rows, vault, id, kept);
      TwoOfAKeyAreRepeated(rows, userID, pws, id, kept);
    }
  }

  // ------------------------------------------------------------------ what a run means for the user

  datatype Entry = Entry(userID: string, key: string, plain: string)

  ghost function Entries(rows: Rows, vault: Vault): set<Entry> {
    set id | id in rows :: Entry(rows[id].userID, rows[id].Key(), vault.Plain(rows[id].password))
  }

  // Main result: whatever fails, what can be read stays the same, the greatest row of every group
  // stays, and a row goes only if a surviving row of greater id in its group reads the same; when
  // both can be opened, the two hold the same text.
  lemma DedupKeepsInformation(rows: Rows, left: Rows, vault: Vault, userID: string)
    requires PartlyPruned(rows, left, vault, userID)
    ensures Entries(left, vault) == Entries(rows, vault)
    ensures forall id | IsGreatest(rows, id) :: id in left
    ensures forall id | id in rows && id !in left ::
              exists kept :: kept in left && id < kept && RedundantTo(rows, vault, id, kept)
    ensures forall id, kept | RedundantTo(rows, vault, id, kept) && vault.Holds(rows[id].password).Text? && vault.Holds(rows[kept].password).Text? ::
              vault.Holds(rows[id].password) == vault.Holds(rows[kept].password)
  {
    forall id | IsGreatest(rows, id) ensures id in left {
      GreatestSurvives(rows, left, vault, userID, id);
    }
    forall id | id in rows && id !in left
      ensures exists kept :: kept in left && id < kept && RedundantTo(rows, vault, id, kept)
    {
      var kept :| RedundantTo(rows, vault, id, kept);
      assert kept in left;
    }
    forall e | e in Entries(rows, vault) ensures e in Entries(left, vault) {
      var id :| id in rows && e == Entry(rows[id].userID, rows[id].Key(), vault.Plain(rows[id].password));
      if id !in left {
        var kept :| kept in left && RedundantTo(rows, vault, id, kept);
        assert left[kept] == rows[kept];
        assert e == Entry(left[kept].userID, left[kept].Key(), vault.Plain(left[kept].password));
      } else {
        assert left[id] == rows[id];
      }
    }
  }

  // ------------------------------------------------------------------ passwords that cannot be opened

  datatype Holding = Holding(userID: string, key: string, secret: Secret)

  function HoldingOf(pw: Password, vault: Vault): Holding {
    Holding(pw.userID, pw.Key(), vault.Holds(pw.password))
  }

  ghost function Holdings(rows: Rows, vault: Vault): set<Holding> {
    set id | id in rows :: HoldingOf(rows[id], vault)
  }

  // Wherever the greatest row of a group reads as empty, the other rows that read as empty hold the
  // very same.
  ghost predicate EmptyReadersAgree(rows: Rows, vault: Vault, userID: string) {
    forall id, kept | id in rows && rows[id].userID == userID && IsGreatest(rows, kept) && SameGroup(rows[id], rows[kept])
                      && vault.Plain(rows[id].password) == "" && vault.Plain(rows[kept].password) == "" ::
      vault.Holds(rows[id].password) == vault.Holds(rows[kept].password)
  }

  // Main result: a complete run loses nothing that is stored, readable or not, exactly when in each
  // group the rows that read as empty like its greatest row hold the same as that row.
  lemma StoredSecretsKeptIff(rows: Rows, vault: Vault, userID: string)
    ensures Holdings(Pruned(rows, vault, userID), vault) == Holdings(rows, vault) <==> EmptyReadersAgree(rows, vault, userID)
  {
    var left := Pruned(rows, vault, userID);
    PrunedIsPartlyPruned(rows, vault, userID);
    if EmptyReadersAgree(rows, vault, userID) {
      forall id | id in rows ensures HoldingOf(rows[id], vault) in Holdings(left, vault) {
        AgreeingSecretStays(rows, vault, userID, id);
      }
      assert Holdings(left, vault) == Holdings(rows, vault);
    } else {
      var id, kept :| id in rows && rows[id].userID == userID && IsGreatest(rows, kept) && SameGroup(rows[id], rows[kept])
        && vault.Plain(rows[id].password) == "" && vault.Plain(rows[kept].password) == ""
        && vault.Holds(rows[id].password) != vault.Holds(rows[kept].password);
      OtherSecretIsLost(rows, vault, userID, id, kept);
      assert HoldingOf(rows[id], vault) in Holdings(rows, vault);
    }
  }

  lemma AgreeingSecretStays(rows: Rows, vault: Vault, userID: string, id: int)
    requires EmptyReadersAgree(rows, vault, userID) && id in rows
    ensures HoldingOf(rows[id], vault) in Holdings(Pruned(rows, vault, userID), vault)
  {
    var left := Pruned(rows, vault, userID);
    PrunedIsPartlyPruned(rows, vault, userID);
    if id in left {
      assert left[id] == rows[id];
    } else {
      var kept :| RedundantTo(rows, vault, id, kept);
      GreatestSurvives(rows, left, vault, userID, kept);
      assert HoldingOf(left[kept], vault) == HoldingOf(rows[id], vault);
    }
  }

  lemma OtherSecretIsLost(rows: Rows, vault: Vault, userID: string, id: int, kept: int)
    requires id in rows && rows[id].userID == userID && IsGreatest(rows, kept) && SameGroup(rows[id], rows[kept])
    requires vault.Plain(rows[id].password) == "" && vault.Plain(rows[kept].password) == ""
    requires vault.Holds(rows[id].password) != vault.Holds(rows[kept].password)
    ensures HoldingOf(rows[id], vault) !in Holdings(Pruned(rows, vault, userID), vault)
  {
    var left := Pruned(rows, vault, userID);
    forall x | x in left ensures HoldingOf(left[x], vault) != HoldingOf(rows[id], vault) {
      if HoldingOf(left[x], vault) == HoldingOf(rows[id], vault) {
        assert RedundantTo(rows, vault, x, kept);
        assert false;
      }
    }
  }

  // It does happen: of two different stored passwords that cannot be opened, under one key, one goes.
  lemma UnreadableCopyIsLost(vault: Vault, userID: string, l: Labels, m: Labels, a: string, b: string)
    requires l != m && GroupKey(l) == GroupKey(m) && a != b
    requires vault.Holds(a) == Sealed(a) && vault.Holds(b) == Sealed(b)
    ensures var rows := TwoRows(userID, l, m, a, b);
            UniqueLabels(rows) && Pruned(rows, vault, userID).Keys == {2}
            && Holding(userID, GroupKey(l), Sealed(a)) !in Holdings(Pruned(rows, vault, userID), vault)
  {
    var rows := TwoRows(userID, l, m, a, b);
    TwoRowsAreUnique(userID, l, m, a, b);
    assert RedundantTo(rows, vault, 1, 2);
    OtherSecretIsLost(rows, vault, userID, 1, 2);
  }

  // Rows 1 and 2 of the user.
  function TwoRows(userID: string, l: Labels, m: Labels, a: string, b: string): Rows {
    map[1 := Password(1, a, l.name, l.website, l.username, userID),
        2 := Password(2, b, m.name, m.website, m.username, userID)]
  }

  lemma TwoRowsAreUnique(userID: string, l: Labels, m: Labels, a: string, b: string)
    requires l != m && GroupKey(l) == GroupKey(m)
    ensures var rows := TwoRows(userID, l, m, a, b);
            IdsMatch(rows) && UniqueLabels(rows) && rows[1].Labels() == l && rows[2].Labels() == m
            && SameGroup(rows[1], rows[2]) && IsGreatest(rows, 2)
  {
    var rows := TwoRows(userID, l, m, a, b);
    assert rows[1].Labels() == l && rows[2].Labels() == m;
    if l.name == m.name && l.website == m.website {
      KeyHasShape(l);
      KeyHasShape(m);
      SameLengthsSameLabels(GroupKey(l), l, m);
      assert false;
    }
  }

  // ------------------------------------------------------------------ passwords as they were given

  // What an AEAD guarantees: opening gives back what was sealed, and nothing seals to an empty text.
  ghost predicate Opens(open: string -> Option<string>, seal: (string, int) -> string) {
    forall p, nonce :: seal(p, nonce) != "" && open(seal(p, nonce)) == Some(p)
  }

  // Every row holds the password that was given for it: sealed when there is a key and it is not
  // empty, and as it is otherwise.
  ghost predicate Given(rows: Rows, keyed: bool, seal: (string, int) -> string, given: map<int, string>, nonces: map<int, int>) {
    forall id | id in rows :: id in given && id in nonces
      && rows[id].password == if keyed && given[id] != "" then seal(given[id], nonces[id]) else given[id]
  }

  // The (user, key, password) triples, with the passwords as they were given.
  ghost function GivenEntries(rows: Rows, given: map<int, string>): set<(string, string, string)> {
    set id | id in rows && id in given ::
      (rows[id].userID, rows[id].name + "::" + rows[id].website + "::" + rows[id].username, given[id])
  }

  predicate SamePlace(p: Password, q: Password) {
    p.userID == q.userID
    && p.name + "::" + p.website + "::" + p.username == q.name + "::" + q.website + "::" + q.username
  }

  lemma Unseals(open: string -> Option<string>, seal: (string, int) -> string, p: string, nonce: int)
    requires Opens(open, seal)
    ensures seal(p, nonce) != "" && open(seal(p, nonce)) == Some(p)
  {
  }

  lemma ReadsAsGiven(rows: Rows, vault: Vault, seal: (string, int) -> string, given: map<int, string>, nonces: map<int, int>)
    requires Opens(vault.open, seal) && Given(rows, vault.keyed, seal, given, nonces)
    ensures forall id | id in rows :: vault.Plain(rows[id].password) == given[id]
  {
    forall id | id in rows ensures vault.Plain(rows[id].password) == given[id] {
      Unseals(vault.open, seal, given[id], nonces[id]);
    }
  }

  // Main result, on the passwords themselves: whatever fails, a run keeps every (user, key,
  // password), and a row goes only if a surviving one of greater id in its group was given the same
  // password; a complete run removes all rows but the greatest that were given its password.
  lemma GivenPasswordsAreKept(rows: Rows, left: Rows, vault: Vault, userID: string, seal: (string, int) -> string,
                              given: map<int, string>, nonces: map<int, int>)
    requires Opens(vault.open, seal) && Given(rows, vault.keyed, seal, given, nonces)
    requires PartlyPruned(rows, left, vault, userID)
    ensures GivenEntries(left, given) == GivenEntries(rows, given)
    ensures forall id | id in rows && id !in left ::
              rows[id].userID == userID
              && exists kept :: kept in left && id < kept && SamePlace(rows[id], rows[kept]) && given[id] == given[kept]
  {
    ReadsAsGiven(rows, vault, seal, given, nonces);
    forall id | id in rows && id !in left
      ensures exists kept :: kept in left && id < kept && SamePlace(rows[id], rows[kept]) && given[id] == given[kept]
    {
      var kept :| RedundantTo(rows, vault, id, kept);
      GreatestSurvives(rows, left, vault, userID, kept);
      SameKeyIsSamePlace(rows[id], rows[kept]);
    }
    forall e | e in GivenEntries(rows, given) ensures e in GivenEntries(left, given) {
      var id :| id in rows && e == (rows[id].userID, rows[id].name + "::" + rows[id].website + "::" + rows[id].username, given[id]);
      if id !in left {
        var kept :| kept in left && id < kept && SamePlace(rows[id], rows[kept]) && given[id] == given[kept];
        assert left[kept] == rows[kept];
      } else {
        assert left[id] == rows[id];
      }
    }
  }

  lemma SameKeyIsSamePlace(p: Password, q: Password)
    ensures SameGroup(p, q) <==> SamePlace(p, q)
  {
  }

  // Which rows a complete run leaves.
  lemma PrunedOnGiven(rows: Rows, vault: Vault, userID: string, seal: (string, int) -> string, given: map<int, string>,
                      nonces: map<int, int>, id: int)
    requires Opens(vault.open, seal) && Given(rows, vault.keyed, seal, given, nonces) && id in rows
    ensures id !in Pruned(rows, vault, userID) <==>
            rows[id].userID == userID
            && exists kept :: kept in rows && id < kept && SamePlace(rows[id], rows[kept]) && given[id] == given[kept]
                 && forall other | other in rows && SamePlace(rows[other], rows[kept]) :: other <= kept
  {
    ReadsAsGiven(rows, vault, seal, given, nonces);
    forall p, q ensures SameGroup(p, q) <==> SamePlace(p, q) { SameKeyIsSamePlace(p, q); }
    if Redundant(rows, vault, id) {
      var kept :| RedundantTo(rows, vault, id, kept);
      assert kept in rows && SamePlace(rows[id], rows[kept]);
    }
    if kept :| kept in rows && id < kept && SamePlace(rows[id], rows[kept]) && given[id] == given[kept]
               && forall other | other in rows && SamePlace(rows[other], rows[kept]) :: other <= kept {
      assert RedundantTo(rows, vault, id, kept);
    }
  }

  // ------------------------------------------------------------------ running again

  lemma PrunedIsPartlyPruned(rows: Rows, vault: Vault, userID: string)
    ensures PartlyPruned(rows, Pruned(rows, vault, userID), vault, userID)
  {
  }

  // Main result: after a run in which nothing failed, another run removes nothing.
  lemma SecondRunRemovesNothing(rows: Rows, vault: Vault, userID: string)
    ensures Pruned(Pruned(rows, vault, userID), vault, userID) == Pruned(rows, vault, userID)
  {
    var left := Pruned(rows, vault, userID);
    PrunedIsPartlyPruned(rows, vault, userID);
    forall id | id in left && left[id].userID == userID ensures !Redundant(left, vault, id) {
      if kept :| RedundantTo(left, vault, id, kept) {
        StillRedundant(rows, left, vault, userID, id, kept);
      }
    }
    forall id ensures Lookup(Pruned(left, vault, userID), id) == Lookup(left, id) { }
    SameRows(Pruned(left, vault, userID), left);
  }

  lemma StillGreatest(rows: Rows, left: Rows, vault: Vault, userID: string, id: int)
    requires PartlyPruned(rows, left, vault, userID) && IsGreatest(left, id)
    ensures IsGreatest(rows, id)
  {
    forall other | other in rows && SameGroup(rows[other], rows[id]) ensures other <= id {
      if other !in left {
        var kept :| RedundantTo(rows, vault, other, kept);
        GreatestSurvives(rows, left, vault, userID, kept);
      }
    }
  }

  lemma StillRedundant(rows: Rows, left: Rows, vault: Vault, userID: string, id: int, kept: int)
    requires PartlyPruned(rows, left, vault, userID) && RedundantTo(left, vault, id, kept)
    ensures Redundant(rows, vault, id)
  {
    StillGreatest(rows, left, vault, userID, kept);
    assert RedundantTo(rows, vault, id, kept);
  }

  // ------------------------------------------------------------------ the unique constraint

  // With unique (user, name, website) and clean labels there is nothing to report.
  lemma CleanUniqueRowsHaveNoGroups(rows: Rows, userID: string, pws: seq<Password>, result: DuplicateAnalysis)
    requires IdsMatch(rows) && UniqueLabels(rows) && Listing(rows, userID, pws) && Analyzes(pws, result)
    requires forall id | id in rows && rows[id].userID == userID :: Clean(rows[id].Labels())
    ensures result == DuplicateAnalysis([], 0)
  {
    forall key | key in KeysInOrder(pws) ensures |IdsWith(pws, key)| <= 1 {
      GroupIdsAre(rows, userID, pws, key);
      var ids := IdsWith(pws, key);
      if |ids| > 1 {
        assert ids[0] in ids && ids[1] in ids && ids[0] != ids[1];
        CleanKeysAreInjective(rows[ids[0]].Labels(), rows[ids[1]].Labels());
        assert false;
      }
    }
    KeysAreDistinct(pws);
    RepeatedAre(pws, KeysInOrder(pws));
    assert |Repeated(pws, KeysInOrder(pws))| > 0 ==> Repeated(pws, KeysInOrder(pws))[0] in Repeated(pws, KeysInOrder(pws));
    NoSurplus(pws, KeysInOrder(pws));
  }

  lemma {:induction false} NoSurplus(pws: seq<Password>, keys: seq<string>)
    requires forall key | key in keys :: |IdsWith(pws, key)| <= 1
    ensures SurplusOf(pws, keys) == 0
    decreases |keys|
  {
    if keys != [] {
      assert keys[|keys| - 1] in keys;
      assert forall key | key in keys[..|keys| - 1] :: key in keys;
      NoSurplus(pws, keys[..|keys| - 1]);
    }
  }

  // Different entries can share a key: every entry that is not the only one with its key can lose
  // against a different entry with the same password. The other has a name, as requests must,
  // unless the key can only be cut at its very start.
  lemma CollidingEntriesAreMerged(l: Labels, vault: Vault, userID: string, password: string) returns (rows: Rows)
    requires !Unambiguous(l)
    ensures IdsMatch(rows) && UniqueLabels(rows) && rows.Keys == {1, 2}
    ensures rows[1].Labels() == l && rows[2].Labels() != l
    ensures l.name != "" && !Unambiguous(WithoutFirst(l)) ==> rows[2].name != ""
    ensures Pruned(rows, vault, userID).Keys == {2}
  {
    var m := AmbiguousHasDouble(l);
    if l.name != "" && !Unambiguous(WithoutFirst(l)) {
      m := NamedDouble(l);
    }
    rows := TwoRows(userID, l, m, password, password);
    TwoRowsAreUnique(userID, l, m, password, password);
    assert RedundantTo(rows, vault, 1, 2);
  }
}
