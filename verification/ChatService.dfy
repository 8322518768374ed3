// Conversations, messages and read receipts of the messaging service.
module ChatService {
  import opened Wrappers

  datatype Message = Message(conversation: nat, sender: string, text: string, ephemeralKey: string, readBy: seq<string>)

  datatype LastMessage = LastMessage(text: string, sender: string)

  datatype Conversation = Conversation(direct: bool, name: string, participants: seq<string>, lastMessage: Option<LastMessage>)

  // The two collections; a document is known by its position.
  datatype Store = Store(conversations: seq<Conversation>, messages: seq<Message>)

  datatype ChatError = NotFound | Forbidden | TooFewParticipants | IncompleteMessage

  // [...new Set(ids)]: the first occurrence of every id.
  function Distinct(ids: seq<string>): seq<string> {
    if ids == [] then []
    else
      var before, last := Distinct(ids[..|ids| - 1]), ids[|ids| - 1];
      if last in before then before else before + [last]
  }

  // The $all and $size conditions of the query for a direct conversation.
  predicate QueryMatches(c: Conversation, ids: seq<string>) {
    c.direct && (forall id | id in ids :: id in c.participants) && |c.participants| == |ids|
  }

  // findOne: the first match, if any.
  function FindDirect(conversations: seq<Conversation>, ids: seq<string>): Option<nat> {
    if conversations == [] then None
    else
      var n := |conversations| - 1;
      var earlier := FindDirect(conversations[..n], ids);
      if earlier.Some? then earlier
      else if QueryMatches(conversations[n], ids) then Some(n)
      else None
  }

  function Created(s: Store, userID: string, direct: bool, others: seq<string>, name: string): (Store, Option<nat>) {
    var ids := Distinct([userID] + others);
    var existing := if direct then FindDirect(s.conversations, ids) else None;
    if existing.Some? then (s, existing)
    else if |ids| < 2 then (s, None)
    else (s.(conversations := s.conversations + [Conversation(direct, name, ids, None)]), Some(|s.conversations|))
  }

  predicate Participates(s: Store, userID: string, c: nat) {
    c < |s.conversations| && userID in s.conversations[c].participants
  }

  // The schema requires a sender and a text, and refuses empty ones.
  predicate MaySend(s: Store, userID: string, c: nat, text: string) {
    Participates(s, userID, c) && userID != "" && text != ""
  }

  function Sent(s: Store, userID: string, c: nat, text: string, key: string): Store
    requires MaySend(s, userID, c, text)
  {
    Store(s.conversations[c := s.conversations[c].(lastMessage := Some(LastMessage(text, userID)))],
          s.messages + [Message(c, userID, text, key, [userID])])
  }

  // The filter of the unread count and of the two statements of markRead.
  predicate UnreadBy(m: Message, userID: string, c: nat) {
    m.conversation == c && m.sender != userID && userID !in m.readBy
  }

  function MarkOne(m: Message, userID: string, c: nat): Message {
    if UnreadBy(m, userID, c) then m.(readBy := m.readBy + [userID]) else m
  }

  // updateMany
  function MarkAll(messages: seq<Message>, userID: string, c: nat): seq<Message> {
    if messages == [] then []
    else MarkAll(messages[..|messages| - 1], userID, c) + [MarkOne(messages[|messages| - 1], userID, c)]
  }

  // countDocuments
  function UnreadCount(messages: seq<Message>, userID: string, c: nat): nat {
    if messages == [] then 0
    else UnreadCount(messages[..|messages| - 1], userID, c) + if UnreadBy(messages[|messages| - 1], userID, c) then 1 else 0
  }

  function UnreadSenders(messages: seq<Message>, userID: string, c: nat): seq<string> {
    if messages == [] then []
    else
      var last := messages[|messages| - 1];
      UnreadSenders(messages[..|messages| - 1], userID, c) + if UnreadBy(last, userID, c) then [last.sender] else []
  }

  // isRead of toMessageResponse.
  predicate IsRead(m: Message) {
    exists reader | reader in m.readBy :: reader != m.sender
  }

  class ChatService {
    var conversations: seq<Conversation>
    var messages: seq<Message>

    function Contents(): Store
      reads this
    {
      Store(conversations, messages)
    }

    constructor ()
      ensures Contents() == Store([], [])
    {
      conversations := [];
      messages := [];
    }

    method CreateConversation(userID: string, direct: bool, others: seq<string>, name: string)
      returns (id: Option<nat>, error: Option<ChatError>)
      modifies this`conversations
      ensures (Contents(), id) == Created(old(Contents()), userID, direct, others, name)
      ensures error == if id.Some? then None else Some(TooFewParticipants)
    {
      var ids := Distinct([userID] + others);
      if direct {
        var existing := FindDirect(conversations, ids);
        if existing.Some? { return existing, None; }
      }
      if |ids| < 2 { return None, Some(TooFewParticipants); }
      id := Some(|conversations|);
      conversations := conversations + [Conversation(direct, name, ids, None)];
      error := None;
    }

    method SendMessage(userID: string, c: nat, text: string, key: string) returns (error: Option<ChatError>)
      modifies this
      ensures error == if c >= |old(conversations)| then Some(NotFound)
                       else if userID !in old(conversations)[c].participants then Some(Forbidden)
                       else if userID == "" || text == "" then Some(IncompleteMessage)
                       else None
      ensures Contents() == if error.None? then Sent(old(Contents()), userID, c, text, key) else old(Contents())
    {
      if c >= |conversations| { return Some(NotFound); }
      if userID !in conversations[c].participants { return Some(Forbidden); }
      if userID == "" || text == "" { return Some(IncompleteMessage); }
      messages := messages + [Message(c, userID, text, key, [userID])];
      conversations := conversations[c := conversations[c].(lastMessage := Some(LastMessage(text, userID)))];
      return None;
    }

    // Returns the users to notify; anybody may mark a conversation read.
    method MarkRead(userID: string, c: nat) returns (senders: seq<string>, error: Option<ChatError>)
      modifies this`messages
      ensures error == if c >= |conversations| then Some(NotFound) else None
      ensures error.Some? ==> messages == old(messages) && senders == []
      ensures error.None? ==> messages == MarkAll(old(messages), userID, c)
      ensures error.None? ==> senders == Distinct(UnreadSenders(old(messages), userID, c))
    {
      if c >= |conversations| { return [], Some(NotFound); }
      senders := Distinct(UnreadSenders(messages, userID, c));
      messages := MarkAll(messages, userID, c);
      error := None;
    }

    method GetUserConversations(userID: string) returns (result: seq<(nat, nat)>)
      ensures forall i | 0 <= i < |result| ::
                Participates(Contents(), userID, result[i].0) && result[i].1 == UnreadCount(messages, userID, result[i].0)
      ensures forall c: nat | Participates(Contents(), userID, c) :: (c, UnreadCount(messages, userID, c)) in result
      ensures forall i, j | 0 <= i < j < |result| :: result[i].0 < result[j].0
    {
      result := [];
      for c := 0 to |conversations|
        invariant forall i | 0 <= i < |result| ::
                    Participates(Contents(), userID, result[i].0) && result[i].1 == UnreadCount(messages, userID, result[i].0)
        invariant forall i, j | 0 <= i < j < |result| :: result[i].0 < result[j].0
        invariant forall i | 0 <= i < |result| :: result[i].0 < c
        invariant forall x: nat | x < c && Participates(Contents(), userID, x) :: (x, UnreadCount(messages, userID, x)) in result
      {
        if userID in conversations[c].participants {
          result := result + [(c, UnreadCount(messages, userID, c))];
        }
      }
    }
  }
}

// What the counters and flags say after any run of the operations.
module ChatRuns {
  import opened Wrappers
  import opened ChatService

  datatype Op =
    | Create(userID: string, direct: bool, others: seq<string>, name: string)
    | Send(userID: string, conversation: nat, text: string, key: string)
    | MarkRead(userID: string, conversation: nat)

  // An operation that is refused changes nothing.
  function Next(s: Store, op: Op): Store {
    match op
    case Create(userID, direct, others, name) => Created(s, userID, direct, others, name).0
    case Send(userID, c, text, key) => if MaySend(s, userID, c, text) then Sent(s, userID, c, text, key) else s
    case MarkRead(userID, c) => if c < |s.conversations| then s.(messages := MarkAll(s.messages, userID, c)) else s
  }

  function Exec(ops: seq<Op>): Store {
    if ops == [] then Store([], []) else Next(Exec(ops[..|ops| - 1]), ops[|ops| - 1])
  }

  // ------------------------------------------------------------------ unread counts

  // From the history alone: what others sent to the conversation since the user last read it.
  function SentSinceRead(ops: seq<Op>, userID: string, c: nat): nat {
    if ops == [] then 0
    else
      var before, last := ops[..|ops| - 1], ops[|ops| - 1];
      match last
      case MarkRead(u, d) =>
        if u == userID && d == c && c < |Exec(before).conversations| then 0 else SentSinceRead(before, userID, c)
      case Send(u, d, text, _) =>
        SentSinceRead(before, userID, c) + if u != userID && d == c && MaySend(Exec(before), u, d, text) then 1 else 0
      case Create(_, _, _, _) => SentSinceRead(before, userID, c)
  }

  lemma MarkAllAt(messages: seq<Message>, userID: string, c: nat)
    ensures |MarkAll(messages, userID, c)| == |messages|
    ensures forall i | 0 <= i < |messages| :: MarkAll(messages, userID, c)[i] == MarkOne(messages[i], userID, c)
  {
    if messages != [] {
      MarkAllAt(messages[..|messages| - 1], userID, c);
    }
  }

  lemma {:induction false} MarkedCount(messages: seq<Message>, marker: string, d: nat, userID: string, c: nat)
    ensures UnreadCount(MarkAll(messages, marker, d), userID, c) ==
            if marker == userID && d == c then 0 else UnreadCount(messages, userID, c)
  {
    if messages != [] {
      var before := messages[..|messages| - 1];
      MarkedCount(before, marker, d, userID, c);
      var marked := MarkAll(messages, marker, d);
      MarkAllAt(before, marker, d);
      assert marked[..|marked| - 1] == MarkAll(before, marker, d);
    }
  }

  // Main result: after any run, the unread count of a user in a conversation is the number of
  // messages others have sent to it since that user last marked it read.
  lemma {:induction false} UnreadCountAgreesWithHistory(ops: seq<Op>, userID: string, c: nat)
    ensures UnreadCount(Exec(ops).messages, userID, c) == SentSinceRead(ops, userID, c)
  {
    if ops != [] {
      var before, last := ops[..|ops| - 1], ops[|ops| - 1];
      UnreadCountAgreesWithHistory(before, userID, c);
      var s := Exec(before);
      match last
      case Create(_, _, _, _) =>
      case Send(u, d, text, key) =>
        if MaySend(s, u, d, text) {
          var after := s.messages + [Message(d, u, text, key, [u])];
          assert after[..|after| - 1] == s.messages;
        }
      case MarkRead(u, d) =>
        if d < |s.conversations| {
          MarkedCount(s.messages, u, d, userID, c);
        }
    }
  }

  // ------------------------------------------------------------------ read receipts

  // Operation k marked message m read for the user: m was there, in that conversation, from someone else.
  predicate MarksMessage(ops: seq<Op>, k: nat, m: nat, userID: string)
    requires k < |ops|
  {
    var s := Exec(ops[..k]);
    && ops[k].MarkRead? && ops[k].userID == userID
    && m < |s.messages| && s.messages[m].conversation == ops[k].conversation < |s.conversations|
    && s.messages[m].sender != userID
  }

  ghost predicate MarkedSince(ops: seq<Op>, m: nat, userID: string) {
    exists k: nat | k < |ops| :: MarksMessage(ops, k, m, userID)
  }

  lemma MarkedSinceStep(ops: seq<Op>, m: nat, userID: string)
    requires ops != []
    ensures MarkedSince(ops, m, userID) <==>
            MarkedSince(ops[..|ops| - 1], m, userID) || MarksMessage(ops, |ops| - 1, m, userID)
  {
    var before := ops[..|ops| - 1];
    forall k: nat | k < |before| ensures MarksMessage(ops, k, m, userID) == MarksMessage(before, k, m, userID) {
      assert before[..k] == ops[..k];
    }
  }

  predicate NoRepeats(ids: seq<string>) {
    forall i, j | 0 <= i < j < |ids| :: ids[i] != ids[j]
  }

  lemma MessageKept(s: Store, op: Op, m: nat)
    requires m < |s.messages|
    ensures m < |Next(s, op).messages|
    ensures Next(s, op).messages[m] ==
            if op.MarkRead? && op.conversation < |s.conversations| then MarkOne(s.messages[m], op.userID, op.conversation) else s.messages[m]
  {
    if op.MarkRead? {
      MarkAllAt(s.messages, op.userID, op.conversation);
    }
  }

  lemma NewMessage(s: Store, op: Op, m: nat)
    requires |s.messages| <= m < |Next(s, op).messages|
    ensures op.Send? && m == |s.messages| && Next(s, op).messages[m].sender == op.userID && Next(s, op).messages[m].readBy == [op.userID]
  {
    if op.MarkRead? {
      MarkAllAt(s.messages, op.userID, op.conversation);
    }
  }

  // Main result: a message starts out read by its sender, is read by exactly those who marked its
  // conversation read after it was sent, and lists nobody twice.
  lemma {:induction false} ReadReceipts(ops: seq<Op>, m: nat)
    requires m < |Exec(ops).messages|
    ensures var msg := Exec(ops).messages[m];
            && msg.readBy != [] && msg.readBy[0] == msg.sender && NoRepeats(msg.readBy)
            && forall userID :: userID in msg.readBy <==> userID == msg.sender || MarkedSince(ops, m, userID)
    decreases |ops|
  {
    var before, last := ops[..|ops| - 1], ops[|ops| - 1];
    var s := Exec(before);
    forall userID ensures MarkedSince(ops, m, userID) <==>
        MarkedSince(before, m, userID) || MarksMessage(ops, |ops| - 1, m, userID)
    {
      MarkedSinceStep(ops, m, userID);
    }
    assert ops[..|ops| - 1] == before;
    if m < |s.messages| {
      ReadReceipts(before, m);
      MessageKept(s, last, m);
    } else {
      NewMessage(s, last, m);
      forall userID ensures !MarkedSince(before, m, userID) { NotYetMarked(before, m, userID); }
    }
  }

  lemma {:induction false} NotYetMarked(ops: seq<Op>, m: nat, userID: string)
    requires |Exec(ops).messages| <= m
    ensures !MarkedSince(ops, m, userID)
    decreases |ops|
  {
    if ops != [] {
      var before, last := ops[..|ops| - 1], ops[|ops| - 1];
      if |Exec(before).messages| > m {
        MessageKept(Exec(before), last, m);
      }
      NotYetMarked(before, m, userID);
      MarkedSinceStep(ops, m, userID);
    }
  }

  // The flag shown for a message: somebody other than its sender marked it read.
  lemma IsReadIff(ops: seq<Op>, m: nat)
    requires m < |Exec(ops).messages|
    ensures IsRead(Exec(ops).messages[m]) <==> exists userID :: MarkedSince(ops, m, userID)
  {
    ReadReceipts(ops, m);
    var msg := Exec(ops).messages[m];
    if userID :| MarkedSince(ops, m, userID) {
      assert userID in msg.readBy;
      MarkedByOther(ops, m, userID);
    }
  }

  lemma {:induction false} MarkedByOther(ops: seq<Op>, m: nat, userID: string)
    requires m < |Exec(ops).messages| && MarkedSince(ops, m, userID)
    ensures Exec(ops).messages[m].sender != userID
    decreases |ops|
  {
    var before, last := ops[..|ops| - 1], ops[|ops| - 1];
    MarkedSinceStep(ops, m, userID);
    assert ops[..|ops| - 1] == before;
    if MarksMessage(ops, |ops| - 1, m, userID) {
      MessageKept(Exec(before), last, m);
    } else {
      if |Exec(before).messages| <= m {
        NotYetMarked(before, m, userID);
      } else {
        MarkedByOther(before, m, userID);
        MessageKept(Exec(before), last, m);
      }
    }
  }

  // What the history says was sent, in order.
  datatype Posted = Posted(conversation: nat, sender: string, text: string, key: string)

  function PostedBy(ops: seq<Op>): seq<Posted> {
    if ops == [] then []
    else
      var before, last := ops[..|ops| - 1], ops[|ops| - 1];
      PostedBy(before) +
      if last.Send? && MaySend(Exec(before), last.userID, last.conversation, last.text) then
        [Posted(last.conversation, last.userID, last.text, last.key)]
      else []
  }

  // Nothing but readBy ever changes: the messages are those that were sent.
  lemma {:induction false} MessagesAreThoseSent(ops: seq<Op>)
    ensures |Exec(ops).messages| == |PostedBy(ops)|
    ensures forall i | 0 <= i < |PostedBy(ops)| ::
              var m := Exec(ops).messages[i];
              PostedBy(ops)[i] == Posted(m.conversation, m.sender, m.text, m.ephemeralKey)
  {
    if ops != [] {
      var before, last := ops[..|ops| - 1], ops[|ops| - 1];
      MessagesAreThoseSent(before);
      if last.MarkRead? {
        MarkAllAt(Exec(before).messages, last.userID, last.conversation);
      }
    }
  }

  // ------------------------------------------------------------------ whom markRead reports

  lemma {:induction false} DistinctIs(ids: seq<string>)
    ensures NoRepeats(Distinct(ids)) && forall id :: id in Distinct(ids) <==> id in ids
  {
    if ids != [] {
      DistinctIs(ids[..|ids| - 1]);
      assert ids == ids[..|ids| - 1] + [ids[|ids| - 1]];
    }
  }

  lemma {:induction false} UnreadSendersAre(messages: seq<Message>, userID: string, c: nat, sender: string)
    ensures sender in UnreadSenders(messages, userID, c) <==>
            exists m | m in messages :: UnreadBy(m, userID, c) && m.sender == sender
  {
    if messages != [] {
      UnreadSendersAre(messages[..|messages| - 1], userID, c, sender);
      assert messages == messages[..|messages| - 1] + [messages[|messages| - 1]];
    }
  }

  // When nothing happens between its two statements, markRead reports each sender once, and exactly
  // the senders of the messages it has just marked.
  lemma ReportedSenders(messages: seq<Message>, userID: string, c: nat)
    ensures var reported, after := Distinct(UnreadSenders(messages, userID, c)), MarkAll(messages, userID, c);
            NoRepeats(reported) && |after| == |messages| &&
            forall sender :: sender in reported <==>
              exists i | 0 <= i < |messages| :: messages[i].sender == sender && after[i] != messages[i]
  {
    var after := MarkAll(messages, userID, c);
    DistinctIs(UnreadSenders(messages, userID, c));
    MarkAllAt(messages, userID, c);
    forall sender
      ensures sender in UnreadSenders(messages, userID, c) <==>
              exists i | 0 <= i < |messages| :: messages[i].sender == sender && after[i] != messages[i]
    {
      UnreadSendersAre(messages, userID, c, sender);
      if m :| m in messages && UnreadBy(m, userID, c) && m.sender == sender {
        var i :| 0 <= i < |messages| && messages[i] == m;
        assert |after[i].readBy| == |m.readBy| + 1;
      }
    }
  }

  // ------------------------------------------------------------------ direct conversations

  function Members(ids: seq<string>): set<string> {
    set id | id in ids
  }

  lemma {:induction false} NoRepeatsSize(ids: seq<string>)
    requires NoRepeats(ids)
    ensures |Members(ids)| == |ids|
  {
    if ids != [] {
      var before, last := ids[..|ids| - 1], ids[|ids| - 1];
      NoRepeatsSize(before);
      assert Members(ids) == Members(before) + {last};
      assert last !in Members(before);
    }
  }

  lemma SubsetOfSameSize(a: set<string>, b: set<string>)
    requires a <= b && |a| == |b|
    ensures a == b
  {
    assert b == a + (b - a);
    assert |b| == |a| + |b - a|;
  }

  // On lists without repeats, $all with $size is equality of sets.
  lemma QueryIsSetEquality(c: Conversation, ids: seq<string>)
    requires NoRepeats(c.participants) && NoRepeats(ids)
    ensures QueryMatches(c, ids) <==> c.direct && Members(c.participants) == Members(ids)
  {
    NoRepeatsSize(c.participants);
    NoRepeatsSize(ids);
    if QueryMatches(c, ids) {
      SubsetOfSameSize(Members(ids), Members(c.participants));
    }
    if Members(c.participants) == Members(ids) {
      forall id | id in ids ensures id in c.participants { assert id in Members(ids); }
    }
  }

  lemma {:induction false} FindDirectIs(conversations: seq<Conversation>, ids: seq<string>)
    ensures match FindDirect(conversations, ids)
            case Some(i) => i < |conversations| && QueryMatches(conversations[i], ids)
                            && forall j | 0 <= j < i :: !QueryMatches(conversations[j], ids)
            case None => forall j | 0 <= j < |conversations| :: !QueryMatches(conversations[j], ids)
  {
    if conversations != [] {
      var before := conversations[..|conversations| - 1];
      FindDirectIs(before, ids);
      forall j | 0 <= j < |before| ensures before[j] == conversations[j] { }
    }
  }

  ghost predicate Canonical(conversations: seq<Conversation>) {
    && (forall i | 0 <= i < |conversations| :: NoRepeats(conversations[i].participants) && |conversations[i].participants| >= 2)
    && (forall i, j | 0 <= i < j < |conversations| && conversations[i].direct && conversations[j].direct ::
          Members(conversations[i].participants) != Members(conversations[j].participants))
  }

  // Main result: after any run of operations one at a time, participants are distinct and at least
  // two, and there is at most one direct conversation for each set of participants.
  lemma {:induction false} DirectConversationsAreCanonical(ops: seq<Op>)
    ensures Canonical(Exec(ops).conversations)
  {
    if ops != [] {
      var before, last := Exec(ops[..|ops| - 1]), ops[|ops| - 1];
      DirectConversationsAreCanonical(ops[..|ops| - 1]);
      if last.Create? {
        CreateKeepsCanonical(before, last.userID, last.direct, last.others, last.name);
      }
    }
  }

  lemma CreateKeepsCanonical(s: Store, userID: string, direct: bool, others: seq<string>, name: string)
    requires Canonical(s.conversations)
    ensures Canonical(Created(s, userID, direct, others, name).0.conversations)
  {
    var ids := Distinct([userID] + others);
    DistinctIs([userID] + others);
    FindDirectIs(s.conversations, ids);
    forall i | 0 <= i < |s.conversations|
      ensures QueryMatches(s.conversations[i], ids) <==>
              s.conversations[i].direct && Members(s.conversations[i].participants) == Members(ids)
    {
      QueryIsSetEquality(s.conversations[i], ids);
    }
  }

  // In canonical conversations a match is the only match, so it is the one that is found.
  lemma FindsTheOnlyMatch(conversations: seq<Conversation>, ids: seq<string>, i: nat)
    requires Canonical(conversations) && NoRepeats(ids)
    requires i < |conversations| && QueryMatches(conversations[i], ids)
    ensures FindDirect(conversations, ids) == Some(i)
  {
    FindDirectIs(conversations, ids);
    var found := FindDirect(conversations, ids).value;
    QueryIsSetEquality(conversations[i], ids);
    QueryIsSetEquality(conversations[found], ids);
  }

  // Main result on one creation: the people are the caller and the others, each once. A direct one
  // that is there already is returned; fewer than two people are refused; otherwise a new
  // conversation of this kind and name is added at the end.
  lemma CreateIs(s: Store, userID: string, direct: bool, others: seq<string>, name: string)
    requires Canonical(s.conversations)
    ensures var people := {userID} + Members(others);
            var (t, id) := Created(s, userID, direct, others, name);
            && t.messages == s.messages
            && (forall i: nat | direct && i < |s.conversations| && s.conversations[i].direct && Members(s.conversations[i].participants) == people ::
                  t == s && id == Some(i))
            && ((!direct || forall i | 0 <= i < |s.conversations| && s.conversations[i].direct :: Members(s.conversations[i].participants) != people) ==>
                  if |people| < 2 then t == s && id == None
                  else
                    var n := |s.conversations|;
                    id == Some(n) && |t.conversations| == n + 1 && t.conversations[..n] == s.conversations
                    && var c := t.conversations[n];
                       c.direct == direct && c.name == name && c.lastMessage == None
                       && NoRepeats(c.participants) && Members(c.participants) == people)
  {
    var ids := Distinct([userID] + others);
    DistinctIs([userID] + others);
    assert Members(ids) == {userID} + Members(others);
    NoRepeatsSize(ids);
    FindDirectIs(s.conversations, ids);
    forall i | 0 <= i < |s.conversations|
      ensures QueryMatches(s.conversations[i], ids) <==>
              s.conversations[i].direct && Members(s.conversations[i].participants) == Members(ids)
    {
      QueryIsSetEquality(s.conversations[i], ids);
    }
  }

  lemma CreatedMatches(s: Store, userID: string, others: seq<string>, name: string)
    requires Created(s, userID, true, others, name).1.Some?
    ensures var (t, id) := Created(s, userID, true, others, name);
            id.value < |t.conversations| && QueryMatches(t.conversations[id.value], Distinct([userID] + others))
  {
    FindDirectIs(s.conversations, Distinct([userID] + others));
  }

  // Asking twice for the same people, by any of them and in any order, gives the same conversation.
  lemma CreateTwiceFindsFirst(ops: seq<Op>, u: string, others: seq<string>, v: string, more: seq<string>, name: string)
    requires Members([u] + others) == Members([v] + more)
    requires Created(Exec(ops), u, true, others, name).1.Some?
    ensures var (s, id) := Created(Exec(ops), u, true, others, name);
            Created(s, v, true, more, name) == (s, id)
  {
    var (s, id) := Created(Exec(ops), u, true, others, name);
    DirectConversationsAreCanonical(ops);
    CreateKeepsCanonical(Exec(ops), u, true, others, name);
    CreatedMatches(Exec(ops), u, others, name);
    var a, b := Distinct([u] + others), Distinct([v] + more);
    DistinctIs([u] + others);
    DistinctIs([v] + more);
    assert Members(a) == Members([u] + others) && Members(b) == Members([v] + more);
    QueryIsSetEquality(s.conversations[id.value], a);
    QueryIsSetEquality(s.conversations[id.value], b);
    FindsTheOnlyMatch(s.conversations, b, id.value);
  }

  // ------------------------------------------------------------------ the preview of a conversation

  function LastSent(ops: seq<Op>, c: nat): Option<LastMessage> {
    if ops == [] then None
    else
      var before, last := ops[..|ops| - 1], ops[|ops| - 1];
      if last.Send? && last.conversation == c && MaySend(Exec(before), last.userID, c, last.text) then Some(LastMessage(last.text, last.userID))
      else LastSent(before, c)
  }

  lemma {:induction false} PreviewIsLastSent(ops: seq<Op>, c: nat)
    ensures (if c < |Exec(ops).conversations| then Exec(ops).conversations[c].lastMessage else None) == LastSent(ops, c)
  {
    if ops != [] {
      PreviewIsLastSent(ops[..|ops| - 1], c);
    }
  }
}
