// Chat requests whose statements interleave: a creation looks up, then saves; markRead reads the
// senders, then marks the messages.
module ChatRequests {
  import opened Wrappers
  import opened ChatService
  import opened ChatRuns

  // A creation past its lookup; `seen` is how many conversations there were when it looked.
  datatype Request = Request(direct: bool, name: string, ids: seq<string>, seen: nat)

  // Conversations are only ever appended, and their kind and participants never change.
  datatype State = State(conversations: seq<Conversation>, pending: map<nat, Request>)

  datatype Step =
    | LookUp(request: nat, userID: string, direct: bool, others: seq<string>, name: string)
    | Save(request: nat)

  // A lookup that finds a conversation ends its request; a save of fewer than two is refused. A
  // request whose number is used again never came to its save.
  function Next(s: State, step: Step): State {
    match step
    case LookUp(r, userID, direct, others, name) =>
      var ids := Distinct([userID] + others);
      if direct && FindDirect(s.conversations, ids).Some? then s.(pending := s.pending - {r})
      else s.(pending := s.pending[r := Request(direct, name, ids, |s.conversations|)])
    case Save(r) =>
      if r !in s.pending then s
      else
        var p := s.pending[r];
        var rest := s.pending - {r};
        if |p.ids| < 2 then s.(pending := rest)
        else State(s.conversations + [Conversation(p.direct, p.name, p.ids, None)], rest)
  }

  // With nothing in between, the two steps are the creation of ChatService.
  lemma LookUpThenSaveIsCreate(s: State, messages: seq<Message>, r: nat, userID: string, direct: bool, others: seq<string>, name: string)
    ensures Next(Next(s, LookUp(r, userID, direct, others, name)), Save(r)).conversations
              == Created(Store(s.conversations, messages), userID, direct, others, name).0.conversations
  {
  }

  function Exec(steps: seq<Step>): State {
    if steps == [] then State([], map[]) else Next(Exec(steps[..|steps| - 1]), steps[|steps| - 1])
  }

  predicate Between(c: Conversation, people: set<string>) {
    c.direct && Members(c.participants) == people
  }

  // The step saves a direct conversation although one between the same people was saved after the
  // request had looked.
  ghost predicate Overtaken(s: State, step: Step) {
    step.Save? && step.request in s.pending &&
    var p := s.pending[step.request];
    p.direct && |p.ids| >= 2 &&
    exists i | p.seen <= i < |s.conversations| :: Between(s.conversations[i], Members(p.ids))
  }

  ghost predicate NeverOvertaken(steps: seq<Step>) {
    steps == [] || (NeverOvertaken(steps[..|steps| - 1]) && !Overtaken(Exec(steps[..|steps| - 1]), steps[|steps| - 1]))
  }

  // What a pending direct request knows: nothing it looked at was between its people.
  ghost predicate Knows(conversations: seq<Conversation>, p: Request) {
    && p.seen <= |conversations|
    && NoRepeats(p.ids)
    && (p.direct ==> forall i | 0 <= i < p.seen :: !Between(conversations[i], Members(p.ids)))
  }

  ghost predicate Sound(s: State) {
    && (forall i | 0 <= i < |s.conversations| :: NoRepeats(s.conversations[i].participants) && |s.conversations[i].participants| >= 2)
    && (forall r | r in s.pending :: Knows(s.conversations, s.pending[r]))
  }

  lemma LookUpIsSound(s: State, step: Step)
    requires Sound(s) && step.LookUp?
    ensures Sound(Next(s, step))
  {
    var ids := Distinct([step.userID] + step.others);
    DistinctIs([step.userID] + step.others);
    FindDirectIs(s.conversations, ids);
    forall i | 0 <= i < |s.conversations|
      ensures QueryMatches(s.conversations[i], ids) <==> Between(s.conversations[i], Members(ids))
    {
      QueryIsSetEquality(s.conversations[i], ids);
    }
  }

  lemma SaveIsSound(s: State, step: Step)
    requires Sound(s) && step.Save?
    ensures Sound(Next(s, step))
  {
    forall r | r in Next(s, step).pending ensures Knows(Next(s, step).conversations, s.pending[r]) {
      assert Knows(s.conversations, s.pending[r]);
    }
    if step.request in s.pending { assert Knows(s.conversations, s.pending[step.request]); }
  }

  lemma {:induction false} ExecIsSound(steps: seq<Step>)
    ensures Sound(Exec(steps))
  {
    if steps != [] {
      var before, last := steps[..|steps| - 1], steps[|steps| - 1];
      ExecIsSound(before);
      if last.LookUp? { LookUpIsSound(Exec(before), last); } else { SaveIsSound(Exec(before), last); }
    }
  }

  // ------------------------------------------------------------------ how many conversations there are

  function CountBetween(conversations: seq<Conversation>, people: set<string>): nat {
    if conversations == [] then 0
    else
      var n := |conversations| - 1;
      CountBetween(conversations[..n], people) + if Between(conversations[n], people) then 1 else 0
  }

  ghost function OvertakenSaves(steps: seq<Step>, people: set<string>): nat {
    if steps == [] then 0
    else
      var before, last := steps[..|steps| - 1], steps[|steps| - 1];
      OvertakenSaves(before, people)
      + if Overtaken(Exec(before), last) && Members(Exec(before).pending[last.request].ids) == people then 1 else 0
  }

  lemma {:induction false} CountIsPositive(conversations: seq<Conversation>, people: set<string>)
    ensures CountBetween(conversations, people) > 0 <==>
            exists i | 0 <= i < |conversations| :: Between(conversations[i], people)
  {
    if conversations != [] {
      var n := |conversations| - 1;
      CountIsPositive(conversations[..n], people);
      if i :| 0 <= i < |conversations| && Between(conversations[i], people) && i < n {
        assert conversations[..n][i] == conversations[i];
      }
    }
  }

  // A save is overtaken exactly when its people already have a conversation.
  lemma OvertakenIff(s: State, step: Step)
    requires Sound(s) && step.Save? && step.request in s.pending
    ensures var p := s.pending[step.request];
            Overtaken(s, step) <==> p.direct && |p.ids| >= 2 && CountBetween(s.conversations, Members(p.ids)) > 0
  {
    var p := s.pending[step.request];
    CountIsPositive(s.conversations, Members(p.ids));
    assert Knows(s.conversations, p);
  }

  // Main result: in any interleaving of requests the direct conversations between the same people
  // are one, if there are any, plus one for each save that was overtaken.
  lemma {:induction false} DuplicatesAreOvertakenSaves(steps: seq<Step>, people: set<string>)
    ensures var n := CountBetween(Exec(steps).conversations, people);
            OvertakenSaves(steps, people) == if n == 0 then 0 else n - 1
  {
    if steps != [] {
      var before, last := steps[..|steps| - 1], steps[|steps| - 1];
      DuplicatesAreOvertakenSaves(before, people);
      ExecIsSound(before);
      if last.Save? && last.request in Exec(before).pending {
        OvertakenIff(Exec(before), last);
        var was, now := Exec(before).conversations, Exec(steps).conversations;
        assert |now| > |was| ==> now[..|was|] == was;
      }
    }
  }

  lemma {:induction false} CountsTwo(conversations: seq<Conversation>, i: nat, j: nat, people: set<string>)
    requires i < j < |conversations| && Between(conversations[i], people) && Between(conversations[j], people)
    ensures CountBetween(conversations, people) >= 2
    decreases |conversations|
  {
    var before := conversations[..|conversations| - 1];
    if j < |before| {
      CountsTwo(before, i, j, people);
    } else {
      assert before[i] == conversations[i];
      CountIsPositive(before, people);
    }
  }

  lemma {:induction false} TwoAreCounted(conversations: seq<Conversation>, people: set<string>)
    requires Canonical(conversations)
    ensures CountBetween(conversations, people) <= 1
  {
    if conversations != [] {
      var before := conversations[..|conversations| - 1];
      TwoAreCounted(before, people);
      CountIsPositive(before, people);
    }
  }

  lemma {:induction false} SomeSaveIsOvertaken(steps: seq<Step>) returns (people: set<string>)
    ensures NeverOvertaken(steps) ==> forall anyone :: OvertakenSaves(steps, anyone) == 0
    ensures !NeverOvertaken(steps) ==> OvertakenSaves(steps, people) > 0
  {
    people := {};
    if steps != [] {
      var before, last := steps[..|steps| - 1], steps[|steps| - 1];
      people := SomeSaveIsOvertaken(before);
      if NeverOvertaken(before) && Overtaken(Exec(before), last) {
        people := Members(Exec(before).pending[last.request].ids);
      }
    }
  }

  // So direct conversations stay canonical exactly when no save is overtaken.
  lemma CanonicalIff(steps: seq<Step>)
    ensures Canonical(Exec(steps).conversations) <==> NeverOvertaken(steps)
  {
    var conversations := Exec(steps).conversations;
    ExecIsSound(steps);
    var people := SomeSaveIsOvertaken(steps);
    if Canonical(conversations) {
      TwoAreCounted(conversations, people);
      DuplicatesAreOvertakenSaves(steps, people);
    }
    if NeverOvertaken(steps) {
      forall i, j | 0 <= i < j < |conversations| && conversations[i].direct && conversations[j].direct
        ensures Members(conversations[i].participants) != Members(conversations[j].participants)
      {
        if Members(conversations[i].participants) == Members(conversations[j].participants) {
          CountsTwo(conversations, i, j, Members(conversations[i].participants));
          DuplicatesAreOvertakenSaves(steps, Members(conversations[i].participants));
          assert false;
        }
      }
    }
  }

  lemma SavedAtOnce(s: State, look: Step, save: Step)
    requires look.LookUp? && save.Save? && look.request == save.request
    ensures !Overtaken(Next(s, look), save)
  {
  }

  predicate Follows(steps: seq<Step>, i: nat)
    requires i < |steps|
  {
    steps[i].Save? ==> i > 0 && steps[i - 1].LookUp? && steps[i - 1].request == steps[i].request
  }

  // Requests that do not overlap: every save directly follows its own lookup.
  predicate OneAtATime(steps: seq<Step>) {
    steps == [] || (OneAtATime(steps[..|steps| - 1]) && Follows(steps, |steps| - 1))
  }

  lemma {:induction false} OneAtATimeIsNeverOvertaken(steps: seq<Step>)
    requires OneAtATime(steps)
    ensures NeverOvertaken(steps)
  {
    if steps != [] {
      var before, last := steps[..|steps| - 1], steps[|steps| - 1];
      OneAtATimeIsNeverOvertaken(before);
      if last.Save? {
        var look := steps[|steps| - 2];
        ExecAppend(before[..|before| - 1], look);
        assert before == before[..|before| - 1] + [look];
        SavedAtOnce(Exec(before[..|before| - 1]), look, last);
      }
    }
  }

  lemma ExecAppend(steps: seq<Step>, step: Step)
    ensures Exec(steps + [step]) == Next(Exec(steps), step)
  {
    assert (steps + [step])[..|steps|] == steps;
  }

  // Two requests that both look before either saves leave two conversations for one pair.
  lemma CrossingRequestsDuplicate(u: string, v: string)
    requires u != v
    ensures var steps := [LookUp(0, u, true, [v], "")] + [LookUp(1, v, true, [u], "")] + [Save(0)] + [Save(1)];
            CountBetween(Exec(steps).conversations, {u, v}) == 2
  {
    var a, b := LookUp(0, u, true, [v], ""), LookUp(1, v, true, [u], "");
    var p, q := Request(true, "", [u, v], 0), Request(true, "", [v, u], 0);
    var first, second := Conversation(true, "", [u, v], None), Conversation(true, "", [v, u], None);
    PairIsDistinct(u, v);
    PairIsDistinct(v, u);
    ExecAppend([], a);
    assert [] + [a] == [a];
    assert Exec([a]) == State([], map[0 := p]);
    ExecAppend([a], b);
    assert Exec([a] + [b]) == State([], map[0 := p, 1 := q]);
    ExecAppend([a] + [b], Save(0));
    assert Exec([a] + [b] + [Save(0)]) == State([first], map[1 := q]);
    ExecAppend([a] + [b] + [Save(0)], Save(1));
    CountOfPair(first, second, {u, v});
  }

  lemma CountOfPair(c: Conversation, d: Conversation, people: set<string>)
    requires Between(c, people) && Between(d, people)
    ensures CountBetween([c] + [d], people) == 2
  {
    assert ([c] + [d])[..1] == [c] && [c][..0] == [];
    assert CountBetween([c], people) == 1;
  }

  lemma PairIsDistinct(u: string, v: string)
    requires u != v
    ensures Distinct([u] + [v]) == [u, v]
  {
    assert ([u] + [v])[..1] == [u] && [u][..0] == [];
    assert Distinct([u]) == [u];
  }

  // ------------------------------------------------------------------ markRead and late messages

  lemma {:induction false} HistoryGrows(a: seq<Op>, b: seq<Op>, i: nat, userID: string, c: nat)
    requires i < |ChatRuns.Exec(a).messages|
    ensures i < |ChatRuns.Exec(a + b).messages|
    ensures ChatRuns.Exec(a + b).messages[i].sender == ChatRuns.Exec(a).messages[i].sender
    ensures UnreadBy(ChatRuns.Exec(a + b).messages[i], userID, c) ==> UnreadBy(ChatRuns.Exec(a).messages[i], userID, c)
    decreases |b|
  {
    if b == [] {
      assert a + b == a;
    } else {
      var before := b[..|b| - 1];
      assert (a + b)[..|a + b| - 1] == a + before;
      HistoryGrows(a, before, i, userID, c);
      MessageKept(ChatRuns.Exec(a + before), b[|b| - 1], i);
    }
  }

  // Main result on markRead when the operations b come between its two statements: all senders of
  // the messages it marks are reported exactly when every message that arrived in between, and that
  // the user has not read meanwhile, is from a sender who is reported anyway. The content is that
  // HistoryGrows covers all earlier messages: whatever happens in between, they need no condition.
  lemma AllSendersReportedIff(a: seq<Op>, b: seq<Op>, userID: string, c: nat)
    ensures var early, late := ChatRuns.Exec(a).messages, ChatRuns.Exec(a + b).messages;
            var reported, after := Distinct(UnreadSenders(early, userID, c)), MarkAll(late, userID, c);
            |early| <= |late| == |after| &&
            ((forall i | 0 <= i < |late| && after[i] != late[i] :: late[i].sender in reported) <==>
             (forall i | |early| <= i < |late| && UnreadBy(late[i], userID, c) :: late[i].sender in reported))
  {
    var early, late := ChatRuns.Exec(a).messages, ChatRuns.Exec(a + b).messages;
    var after := MarkAll(late, userID, c);
    MarkAllAt(late, userID, c);
    DistinctIs(UnreadSenders(early, userID, c));
    if early != [] { HistoryGrows(a, b, |early| - 1, userID, c); }
    forall i | 0 <= i < |late| ensures after[i] != late[i] <==> UnreadBy(late[i], userID, c) {
      assert UnreadBy(late[i], userID, c) ==> |after[i].readBy| == |late[i].readBy| + 1;
    }
    forall i | 0 <= i < |early| && UnreadBy(late[i], userID, c)
      ensures late[i].sender in UnreadSenders(early, userID, c)
    {
      HistoryGrows(a, b, i, userID, c);
      UnreadSendersAre(early, userID, c, early[i].sender);
      assert early[i] in early;
    }
  }

  lemma SendArrives(a: seq<Op>, sender: string, c: nat, text: string, key: string)
    requires MaySend(ChatRuns.Exec(a), sender, c, text)
    ensures ChatRuns.Exec(a + [Send(sender, c, text, key)]).messages
              == ChatRuns.Exec(a).messages + [Message(c, sender, text, key, [sender])]
  {
    assert (a + [Send(sender, c, text, key)])[..|a|] == a;
  }

  // It does happen: whenever somebody who is not reported sends between the two statements, that
  // message is among those marked and its sender is not told.
  lemma LateSenderIsMissed(a: seq<Op>, userID: string, sender: string, c: nat, text: string, key: string)
    requires userID != sender && MaySend(ChatRuns.Exec(a), sender, c, text)
    requires sender !in UnreadSenders(ChatRuns.Exec(a).messages, userID, c)
    ensures var early, late := ChatRuns.Exec(a).messages, ChatRuns.Exec(a + [Send(sender, c, text, key)]).messages;
            |late| == |early| + 1 && UnreadBy(late[|early|], userID, c) && late[|early|].sender == sender
            && sender !in Distinct(UnreadSenders(early, userID, c))
  {
    SendArrives(a, sender, c, text, key);
    DistinctIs(UnreadSenders(ChatRuns.Exec(a).messages, userID, c));
  }
}
