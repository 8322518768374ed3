// The two maps of the socket gateway: the open sockets of every user, and the user of every socket.
module SocketIndex {
  import opened Wrappers

  datatype Client = Client(userId: string, email: string)

  // The contents of both maps, with the per-user sets as values.
  datatype Index = Index(users: map<string, set<string>>, sockets: map<string, Client>)

  function Registered(ix: Index, socketId: string, client: Client): Index {
    var own := if client.userId in ix.users then ix.users[client.userId] else {};
    Index(ix.users[client.userId := own + {socketId}], ix.sockets[socketId := client])
  }

  function Removed(ix: Index, socketId: string): Index {
    if socketId !in ix.sockets then ix
    else
      var u := ix.sockets[socketId].userId;
      var users :=
        if u !in ix.users then ix.users
        else if ix.users[u] - {socketId} == {} then ix.users - {u}
        else ix.users[u := ix.users[u] - {socketId}];
      Index(users, ix.sockets - {socketId})
  }

  // The object in which the gateway keeps the sockets of one user.
  class SocketSet {
    var elems: set<string>

    constructor ()
      ensures elems == {}
    {
      elems := {};
    }

    method Add(socketId: string)
      modifies this
      ensures elems == old(elems) + {socketId}
    {
      elems := elems + {socketId};
    }

    method Delete(socketId: string)
      modifies this
      ensures elems == old(elems) - {socketId}
    {
      elems := elems - {socketId};
    }
  }

  // Token checking is library code: `validate` stands for it and rejects with None.
  class GatewayService {
    var userIdToSockets: map<string, SocketSet>
    var socketIdToUser: map<string, Client>
    const validate: string -> Option<Client>

    // No two users share a set object.
    ghost predicate Unaliased()
      reads this
    {
      forall u, v | u in userIdToSockets && v in userIdToSockets && u != v :: userIdToSockets[u] != userIdToSockets[v]
    }

    ghost function View(): Index
      reads this, userIdToSockets.Values
    {
      Index(map u | u in userIdToSockets :: userIdToSockets[u].elems, socketIdToUser)
    }

    constructor (validate: string -> Option<Client>)
      ensures Unaliased() && View() == Index(map[], map[]) && this.validate == validate
    {
      userIdToSockets := map[];
      socketIdToUser := map[];
      this.validate := validate;
    }

    // A rejected registration changes nothing.
    method RegisterConnection(socketId: string, token: string) returns (client: Option<Client>)
      requires Unaliased()
      modifies this, userIdToSockets.Values
      ensures Unaliased() && client == if token == "" then None else validate(token)
      ensures View() == if client.Some? then Registered(old(View()), socketId, client.value) else old(View())
      ensures fresh(userIdToSockets.Values - old(userIdToSockets.Values))
    {
      if token == "" { return None; }
      client := validate(token);
      if client.None? { return; }
      var u := client.value.userId;
      if u !in userIdToSockets {
        var empty := new SocketSet();
        userIdToSockets := userIdToSockets[u := empty];
      }
      userIdToSockets[u].Add(socketId);
      socketIdToUser := socketIdToUser[socketId := client.value];
    }

    method RemoveConnection(socketId: string)
      requires Unaliased()
      modifies this, userIdToSockets.Values
      ensures Unaliased() && View() == Removed(old(View()), socketId)
      ensures userIdToSockets.Values <= old(userIdToSockets.Values)
    {
      if socketId !in socketIdToUser { return; }
      var u := socketIdToUser[socketId].userId;
      if u in userIdToSockets {
        var sockets := userIdToSockets[u];
        sockets.Delete(socketId);
        if sockets.elems == {} {
          userIdToSockets := userIdToSockets - {u};
        }
      }
      socketIdToUser := socketIdToUser - {socketId};
    }

    method GetUserSockets(userId: string) returns (sockets: set<string>)
      ensures sockets == SocketsOf(View(), userId)
    {
      if userId in userIdToSockets { return userIdToSockets[userId].elems; }
      return {};
    }

    method GetUserId(socketId: string) returns (userId: Option<string>)
      ensures userId == UserOf(View(), socketId)
    {
      if socketId in socketIdToUser { return Some(socketIdToUser[socketId].userId); }
      return None;
    }

    method GetConnectionCount() returns (n: nat)
      ensures n == |View().sockets|
    {
      n := |socketIdToUser|;
    }
  }

  function SocketsOf(ix: Index, userId: string): set<string> {
    if userId in ix.users then ix.users[userId] else {}
  }

  function UserOf(ix: Index, socketId: string): Option<string> {
    if socketId in ix.sockets then Some(ix.sockets[socketId].userId) else None
  }

  // ------------------------------------------------------------------ the two maps agree

  ghost predicate Agree(ix: Index) {
    && (forall u, s :: s in SocketsOf(ix, u) <==> UserOf(ix, s) == Some(u))
    && (forall u | u in ix.users :: ix.users[u] != {})
  }

  // Main result: a registration keeps the maps in agreement exactly when the socket is new or
  // belongs to the same user already.
  lemma RegisterAgreesIff(ix: Index, socketId: string, client: Client)
    requires Agree(ix)
    ensures Agree(Registered(ix, socketId, client)) <==>
            socketId !in ix.sockets || ix.sockets[socketId].userId == client.userId
  {
    var after := Registered(ix, socketId, client);
    if socketId !in ix.sockets || ix.sockets[socketId].userId == client.userId {
      forall u, s ensures s in SocketsOf(after, u) <==> UserOf(after, s) == Some(u) {
        assert s in SocketsOf(ix, u) <==> UserOf(ix, s) == Some(u);
      }
    } else {
      var owner := ix.sockets[socketId].userId;
      assert UserOf(ix, socketId) == Some(owner);
      assert socketId in SocketsOf(after, owner) && UserOf(after, socketId) != Some(owner);
    }
  }

  // A registration puts the socket in the set of its user and nowhere else, and leaves all others alone.
  lemma RegisterRegisters(ix: Index, socketId: string, client: Client)
    ensures var after := Registered(ix, socketId, client);
            && after.sockets.Keys == ix.sockets.Keys + {socketId} && after.sockets[socketId] == client
            && (forall s | s in ix.sockets && s != socketId :: after.sockets[s] == ix.sockets[s])
            && (forall u, s :: s in SocketsOf(after, u) <==> s in SocketsOf(ix, u) || (u == client.userId && s == socketId))
  {
  }

  lemma RemoveAgrees(ix: Index, socketId: string)
    requires Agree(ix)
    ensures Agree(Removed(ix, socketId)) && socketId !in Removed(ix, socketId).sockets
    ensures forall s | s != socketId :: UserOf(Removed(ix, socketId), s) == UserOf(ix, s)
  {
    var after := Removed(ix, socketId);
    forall u, s ensures s in SocketsOf(after, u) <==> UserOf(after, s) == Some(u) {
      assert s in SocketsOf(ix, u) <==> UserOf(ix, s) == Some(u);
    }
  }

  // Removing what was just registered gives back the maps as they were.
  lemma RemoveUndoesRegister(ix: Index, socketId: string, client: Client)
    requires Agree(ix) && socketId !in ix.sockets
    ensures Removed(Registered(ix, socketId, client), socketId) == ix
  {
    var u := client.userId;
    assert socketId !in SocketsOf(ix, u) by {
      assert UserOf(ix, socketId) == None;
    }
    var back := Removed(Registered(ix, socketId, client), socketId);
    assert SocketsOf(ix, u) + {socketId} - {socketId} == SocketsOf(ix, u);
    assert back.users == ix.users;
    assert back.sockets == ix.sockets;
  }

  // ------------------------------------------------------------------ runs

  datatype Op = Register(socketId: string, client: Client) | Remove(socketId: string)

  function Exec(ops: seq<Op>): Index {
    if ops == [] then Index(map[], map[])
    else
      var before, last := Exec(ops[..|ops| - 1]), ops[|ops| - 1];
      if last.Register? then Registered(before, last.socketId, last.client) else Removed(before, last.socketId)
  }

  // Socket ids are not reused for another user while the socket is registered.
  predicate FreshSockets(ops: seq<Op>) {
    ops == [] ||
    (var before, last := ops[..|ops| - 1], ops[|ops| - 1];
     FreshSockets(before) &&
     (last.Register? && last.socketId in Exec(before).sockets ==> Exec(before).sockets[last.socketId].userId == last.client.userId))
  }

  lemma {:induction false} RunsAgree(ops: seq<Op>)
    requires FreshSockets(ops)
    ensures Agree(Exec(ops))
  {
    if ops != [] {
      var before, last := ops[..|ops| - 1], ops[|ops| - 1];
      RunsAgree(before);
      if last.Register? {
        RegisterAgreesIff(Exec(before), last.socketId, last.client);
      } else {
        RemoveAgrees(Exec(before), last.socketId);
      }
    }
  }

  // Operation i is the last one about the socket, and registers it for this client.
  predicate RegistersLast(ops: seq<Op>, s: string, client: Client, i: int) {
    0 <= i < |ops| && ops[i] == Register(s, client) && forall j | i < j < |ops| :: ops[j].socketId != s
  }

  lemma LastOneStep(ops: seq<Op>, s: string, client: Client, i: int)
    requires ops != []
    ensures RegistersLast(ops, s, client, i) <==>
            if i == |ops| - 1 then ops[i] == Register(s, client)
            else RegistersLast(ops[..|ops| - 1], s, client, i) && ops[|ops| - 1].socketId != s
  {
  }

  // Main result: after any run a socket belongs to a client exactly when the last operation about
  // it registered it for that client; so it is known exactly when it was not removed since.
  lemma {:induction false} LastOperationDecides(ops: seq<Op>, s: string, client: Client)
    ensures Lookup(Exec(ops).sockets, s) == Some(client) <==> exists i :: RegistersLast(ops, s, client, i)
  {
    if ops != [] {
      var before, last := ops[..|ops| - 1], ops[|ops| - 1];
      LastOperationDecides(before, s, client);
      forall i ensures RegistersLast(ops, s, client, i) <==>
          if i == |ops| - 1 then ops[i] == Register(s, client) else RegistersLast(before, s, client, i) && last.socketId != s
      {
        LastOneStep(ops, s, client, i);
      }
      if last.Register? && last.socketId == s {
        assert last.client == client ==> RegistersLast(ops, s, client, |ops| - 1);
      }
      if Lookup(Exec(before).sockets, s) == Some(client) && last.socketId != s {
        var i :| RegistersLast(before, s, client, i);
        assert RegistersLast(ops, s, client, i);
      }
    }
  }

  // And the sockets of a user are those that were last registered for that user.
  lemma SocketsAreLastRegistered(ops: seq<Op>, u: string, s: string)
    requires FreshSockets(ops)
    ensures s in SocketsOf(Exec(ops), u) <==> exists client: Client, i :: client.userId == u && RegistersLast(ops, s, client, i)
  {
    RunsAgree(ops);
    var ix := Exec(ops);
    assert s in SocketsOf(ix, u) <==> UserOf(ix, s) == Some(u);
    if s in ix.sockets {
      LastOperationDecides(ops, s, ix.sockets[s]);
    }
    if client: Client, i :| client.userId == u && RegistersLast(ops, s, client, i) {
      LastOperationDecides(ops, s, client);
    }
  }

  ghost function SocketsOfAll(ix: Index, us: set<string>): set<string> {
    set s | s in ix.sockets && ix.sockets[s].userId in us
  }

  // The sizes of the sets of these users, added up.
  ghost function TotalSize(ix: Index, us: set<string>): (n: nat)
    requires Agree(ix)
    ensures n == |SocketsOfAll(ix, us)|
  {
    if us == {} then
      assert SocketsOfAll(ix, us) == {};
      0
    else
      var u :| u in us;
      assert SocketsOf(ix, u) == SocketsOfAll(ix, {u}) by { UserSockets(ix, u); }
      assert SocketsOfAll(ix, us) == SocketsOfAll(ix, {u}) + SocketsOfAll(ix, us - {u});
      |SocketsOf(ix, u)| + TotalSize(ix, us - {u})
  }

  lemma UserSockets(ix: Index, u: string)
    requires Agree(ix)
    ensures SocketsOf(ix, u) == SocketsOfAll(ix, {u})
  {
    forall s ensures s in SocketsOf(ix, u) <==> s in SocketsOfAll(ix, {u}) {
      assert s in SocketsOf(ix, u) <==> UserOf(ix, s) == Some(u);
    }
  }

  // Main result: after any run, the sockets of a user are exactly those whose user it is, no user
  // has an empty set, and the sizes of the sets add up to the connection count.
  lemma DoubleIndex(ops: seq<Op>)
    requires FreshSockets(ops)
    ensures var ix := Exec(ops);
            Agree(ix) && TotalSize(ix, ix.users.Keys) == |ix.sockets|
  {
    RunsAgree(ops);
    var ix := Exec(ops);
    forall s | s in ix.sockets ensures s in SocketsOfAll(ix, ix.users.Keys) {
      assert UserOf(ix, s) == Some(ix.sockets[s].userId);
    }
    assert SocketsOfAll(ix, ix.users.Keys) == ix.sockets.Keys;
  }
}
