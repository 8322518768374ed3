// The consumer loop of the Go services: fetch, verify, handle, commit. One partition.
module KafkaConsumer {

  datatype Header = Header(key: string, value: string)

  datatype Message = Message(headers: seq<Header>, key: string, value: string)

  const SIGNATURE_HEADER := "X-Signature"

  // The value of the first X-Signature header; empty when there is none.
  function FirstSignature(headers: seq<Header>): string {
    if headers == [] then ""
    else if headers[0].key == SIGNATURE_HEADER then headers[0].value
    else FirstSignature(headers[1..])
  }

  // The HMAC is library code: `verify` stands for it.
  predicate Signed(m: Message, verify: (string, string) -> bool) {
    FirstSignature(m.headers) != "" && verify(m.value, FirstSignature(m.headers))
  }

  // What the surroundings do during one turn of the loop. A process that dies between the handler
  // and the commit is a commit that fails; `unheard` is a failed commit that reached the broker.
  datatype Outcome = Outcome(fetchOk: bool, handlerOk: bool, commitOk: bool, unheard: bool) {
    predicate Commits() { commitOk || unheard }
  }

  // position: the next offset to fetch. committed: where a restart resumes. The rest records the
  // offsets ever fetched and given to the handler, in order, and those handled without error.
  datatype State = State(position: nat, committed: nat, fetched: seq<nat>, handled: seq<nat>, succeeded: set<nat>)

  // One turn, and whether the loop goes on. The end of the log is a fetch that does not come back.
  function Turn(log: seq<Message>, verify: (string, string) -> bool, s: State, o: Outcome): (State, bool) {
    if !o.fetchOk || s.position >= |log| then (s, false)
    else
      var at := s.position;
      var s1 := s.(position := at + 1, fetched := s.fetched + [at]);
      if !Signed(log[at], verify) then (s1, true)
      else
        var s2 := s1.(handled := s1.handled + [at]);
        if !o.handlerOk then (s2, true)
        else
          var s3 := s2.(succeeded := s2.succeeded + {at});
          (if o.Commits() then s3.(committed := at + 1) else s3, o.commitOk)
  }

  // The loop from one start to its end, or to the end of the script, where the process is killed.
  function Session(log: seq<Message>, verify: (string, string) -> bool, s: State, script: seq<Outcome>): State
    decreases |script|
  {
    if script == [] then s
    else
      var (t, on) := Turn(log, verify, s, script[0]);
      if on then Session(log, verify, t, script[1..]) else t
  }

  function Restart(s: State): State {
    s.(position := s.committed)
  }

  class Consumer {
    const log: seq<Message>
    const verify: (string, string) -> bool
    var position: nat
    var committed: nat
    ghost var fetched: seq<nat>
    ghost var handled: seq<nat>
    ghost var succeeded: set<nat>

    ghost function View(): State
      reads this
    {
      State(position, committed, fetched, handled, succeeded)
    }

    constructor (log: seq<Message>, verify: (string, string) -> bool)
      ensures View() == State(0, 0, [], [], {}) && this.log == log && this.verify == verify
    {
      this.log := log;
      this.verify := verify;
      position, committed := 0, 0;
      fetched, handled, succeeded := [], [], {};
    }

    method VerifySignature(m: Message) returns (ok: bool)
      ensures ok == Signed(m, verify)
    {
      var signature := "";
      for i := 0 to |m.headers|
        invariant signature == "" && FirstSignature(m.headers) == FirstSignature(m.headers[i..])
      {
        if m.headers[i].key == SIGNATURE_HEADER {
          signature := m.headers[i].value;
          break;
        }
      }
      if signature == "" { return false; }
      return verify(m.value, signature);
    }

    method Run(script: seq<Outcome>)
      modifies this
      ensures View() == Session(log, verify, old(View()), script)
    {
      for i := 0 to |script|
        invariant Session(log, verify, View(), script[i..]) == Session(log, verify, old(View()), script)
      {
        if !script[i].fetchOk || position >= |log| { return; }
        var at := position;
        position, fetched := at + 1, fetched + [at];
        var signed := VerifySignature(log[at]);
        if !signed { continue; }
        handled := handled + [at];
        if !script[i].handlerOk { continue; }
        succeeded := succeeded + {at};
        if script[i].Commits() { committed := at + 1; }
        if !script[i].commitOk { return; }
      }
    }
  }

  // The first X-Signature header is the one that counts.
  lemma {:induction false} SignedIff(m: Message, verify: (string, string) -> bool)
    ensures Signed(m, verify) <==>
            exists i | 0 <= i < |m.headers| ::
              && m.headers[i].key == "X-Signature" && m.headers[i].value != "" && verify(m.value, m.headers[i].value)
              && forall j | 0 <= j < i :: m.headers[j].key != "X-Signature"
  {
    FirstSignatureIs(m.headers);
  }

  lemma {:induction false} FirstSignatureIs(headers: seq<Header>)
    ensures (forall i | 0 <= i < |headers| :: headers[i].key != "X-Signature") ==> FirstSignature(headers) == ""
    ensures forall i | 0 <= i < |headers| && headers[i].key == "X-Signature"
                       && (forall j | 0 <= j < i :: headers[j].key != "X-Signature") ::
              FirstSignature(headers) == headers[i].value
    ensures FirstSignature(headers) != "" ==>
              exists i | 0 <= i < |headers| :: headers[i].key == "X-Signature" && forall j | 0 <= j < i :: headers[j].key != "X-Signature"
  {
    if headers != [] && headers[0].key != SIGNATURE_HEADER {
      var rest := headers[1..];
      FirstSignatureIs(rest);
      assert headers == [headers[0]] + rest;
      forall i | 0 <= i < |headers| && headers[i].key == "X-Signature"
                 && (forall j | 0 <= j < i :: headers[j].key != "X-Signature")
        ensures FirstSignature(headers) == headers[i].value
      {
        assert rest[i - 1] == headers[i];
        assert forall j | 0 <= j < i - 1 :: rest[j] == headers[j + 1];
      }
      if FirstSignature(rest) != "" {
        var i :| 0 <= i < |rest| && rest[i].key == "X-Signature" && forall j | 0 <= j < i :: rest[j].key != "X-Signature";
        assert headers[i + 1] == rest[i];
        forall j | 0 <= j < i + 1 ensures headers[j].key != "X-Signature" {
          if j > 0 { assert headers[j] == rest[j - 1]; }
        }
      }
    }
  }

  // ------------------------------------------------------------------ safety over crashes and restarts

  // Any number of sessions, each after a restart.
  function Life(log: seq<Message>, verify: (string, string) -> bool, scripts: seq<seq<Outcome>>): State {
    if scripts == [] then State(0, 0, [], [], {})
    else Session(log, verify, Restart(Life(log, verify, scripts[..|scripts| - 1])), scripts[|scripts| - 1])
  }

  // The offsets among these whose messages carry a valid signature.
  function SignedOnly(log: seq<Message>, verify: (string, string) -> bool, offsets: seq<nat>): seq<nat> {
    if offsets == [] then []
    else
      var last := offsets[|offsets| - 1];
      SignedOnly(log, verify, offsets[..|offsets| - 1]) + if last < |log| && Signed(log[last], verify) then [last] else []
  }

  ghost predicate Safe(log: seq<Message>, verify: (string, string) -> bool, s: State) {
    && s.committed <= s.position <= |log|
    && s.handled == SignedOnly(log, verify, s.fetched)
    && (forall at | at in s.succeeded :: at in s.handled)
    && (forall at | at in s.fetched :: at < |log|)
    && (forall at: nat | at < s.committed :: at in s.fetched)
    && (s.committed > 0 ==> s.committed - 1 in s.succeeded)
  }

  lemma SignedAppend(log: seq<Message>, verify: (string, string) -> bool, offsets: seq<nat>, at: nat)
    requires at < |log|
    ensures SignedOnly(log, verify, offsets + [at]) == SignedOnly(log, verify, offsets) + if Signed(log[at], verify) then [at] else []
  {
    assert (offsets + [at])[..|offsets|] == offsets;
  }

  ghost predicate AllFetched(s: State) {
    forall at: nat | at < s.position :: at in s.fetched
  }

  // The state once the message at the position has been fetched and, if it is signed, handed over.
  function Fetched(log: seq<Message>, verify: (string, string) -> bool, s: State): State
    requires s.position < |log|
  {
    var at := s.position;
    s.(position := at + 1, fetched := s.fetched + [at], handled := s.handled + if Signed(log[at], verify) then [at] else [])
  }

  lemma FetchedIsSafe(log: seq<Message>, verify: (string, string) -> bool, s: State)
    requires Safe(log, verify, s) && AllFetched(s) && s.position < |log|
    ensures Safe(log, verify, Fetched(log, verify, s)) && AllFetched(Fetched(log, verify, s))
  {
    SignedAppend(log, verify, s.fetched, s.position);
    assert forall x: nat | x < s.position + 1 :: x in s.fetched || x == s.position;
  }

  lemma TurnIsSafe(log: seq<Message>, verify: (string, string) -> bool, s: State, o: Outcome)
    requires Safe(log, verify, s) && AllFetched(s)
    ensures Safe(log, verify, Turn(log, verify, s, o).0) && AllFetched(Turn(log, verify, s, o).0)
  {
    if o.fetchOk && s.position < |log| {
      var at, t := s.position, Fetched(log, verify, s);
      FetchedIsSafe(log, verify, s);
      if Signed(log[at], verify) && o.handlerOk {
        var done := t.(succeeded := t.succeeded + {at});
        assert Turn(log, verify, s, o).0 == if o.Commits() then done.(committed := at + 1) else done;
      } else {
        assert Turn(log, verify, s, o).0 == t;
      }
    }
  }

  lemma {:induction false} SessionIsSafe(log: seq<Message>, verify: (string, string) -> bool, s: State, script: seq<Outcome>)
    requires Safe(log, verify, s) && AllFetched(s)
    ensures Safe(log, verify, Session(log, verify, s, script))
    decreases |script|
  {
    if script != [] {
      var (t, on) := Turn(log, verify, s, script[0]);
      TurnIsSafe(log, verify, s, script[0]);
      if on {
        SessionIsSafe(log, verify, t, script[1..]);
      }
    }
  }

  // Main result: over any sessions, every offset below the committed one has been fetched, the last
  // committed message was handled without error, and the handler was given exactly the fetched
  // messages whose signature verifies, in the order of their delivery.
  lemma {:induction false} ConsumerIsSafe(log: seq<Message>, verify: (string, string) -> bool, scripts: seq<seq<Outcome>>)
    ensures Safe(log, verify, Life(log, verify, scripts))
  {
    if scripts != [] {
      var before := Life(log, verify, scripts[..|scripts| - 1]);
      ConsumerIsSafe(log, verify, scripts[..|scripts| - 1]);
      SessionIsSafe(log, verify, Restart(before), scripts[|scripts| - 1]);
    }
  }

  function Offsets(lo: nat, hi: nat): seq<nat>
    decreases hi - lo
  {
    if hi <= lo then [] else [lo] + Offsets(lo + 1, hi)
  }

  // A session fetches exactly the offsets from where it started up to its final position.
  lemma {:induction false} SessionIsContiguous(log: seq<Message>, verify: (string, string) -> bool, s: State, script: seq<Outcome>)
    ensures var t := Session(log, verify, s, script);
            && s.position <= t.position
            && t.fetched == s.fetched + Offsets(s.position, t.position)
            && (t.committed == s.committed || s.position < t.committed <= t.position)
    decreases |script|
  {
    if script != [] {
      var (t, on) := Turn(log, verify, s, script[0]);
      assert Offsets(t.position, t.position) == [];
      if on {
        SessionIsContiguous(log, verify, t, script[1..]);
        var end := Session(log, verify, t, script[1..]);
        assert Offsets(s.position, end.position) == [s.position] + Offsets(t.position, end.position);
      }
    }
  }

  // So after a restart redelivery starts exactly at the committed offset, without gaps, and the
  // committed offset never goes back.
  lemma RestartRedeliversFromCommitted(log: seq<Message>, verify: (string, string) -> bool, scripts: seq<seq<Outcome>>, script: seq<Outcome>)
    ensures var s, t := Life(log, verify, scripts), Life(log, verify, scripts + [script]);
            && t.fetched == s.fetched + Offsets(s.committed, t.position)
            && s.committed <= t.committed <= t.position
  {
    assert (scripts + [script])[..|scripts|] == scripts;
    SessionIsContiguous(log, verify, Restart(Life(log, verify, scripts)), script);
    ConsumerIsSafe(log, verify, scripts + [script]);
  }

  // ------------------------------------------------------------------ which messages are lost

  // Never handled without error, and below the offset where any restart resumes.
  predicate Lost(s: State, at: nat) {
    at < s.committed && at !in s.succeeded
  }

  // The turn that fetches offset `at` gets through the handler.
  predicate Succeeds(log: seq<Message>, verify: (string, string) -> bool, at: nat, o: Outcome) {
    o.fetchOk && at < |log| && Signed(log[at], verify) && o.handlerOk
  }

  // The loop goes on after a turn when its fetch works and its commit, if it comes to one, does too.
  predicate GoesOn(log: seq<Message>, verify: (string, string) -> bool, from: nat, o: Outcome) {
    o.fetchOk && from < |log| && (Succeeds(log, verify, from, o) ==> o.commitOk)
  }

  // Turn j of a session that starts at `from` is reached and commits its message.
  predicate CommitsAt(log: seq<Message>, verify: (string, string) -> bool, from: nat, script: seq<Outcome>, j: nat)
    decreases |script|
  {
    script != [] &&
    if j == 0 then Succeeds(log, verify, from, script[0]) && script[0].Commits()
    else GoesOn(log, verify, from, script[0]) && CommitsAt(log, verify, from + 1, script[1..], j - 1)
  }

  ghost predicate CommitsAfter(log: seq<Message>, verify: (string, string) -> bool, from: nat, script: seq<Outcome>, k: int) {
    exists j: nat :: k < j && CommitsAt(log, verify, from, script, j)
  }

  // Turn j is the last one of the session that commits.
  ghost predicate LastCommit(log: seq<Message>, verify: (string, string) -> bool, from: nat, script: seq<Outcome>, j: nat) {
    CommitsAt(log, verify, from, script, j) && !CommitsAfter(log, verify, from, script, j)
  }

  // Main result: the committed offset after a session is the one after the last message whose commit
  // got through, and stays where it was when there is none.
  lemma {:induction false} CommittedIs(log: seq<Message>, verify: (string, string) -> bool, s: State, script: seq<Outcome>)
    ensures var t := Session(log, verify, s, script);
            && (!CommitsAfter(log, verify, s.position, script, -1) ==> t.committed == s.committed)
            && forall j: nat | LastCommit(log, verify, s.position, script, j) :: t.committed == s.position + j + 1
    decreases |script|
  {
    if script != [] {
      var (t, on) := Turn(log, verify, s, script[0]);
      CommitsAtShift(log, verify, s.position, script, 0);
      if on {
        CommittedIs(log, verify, t, script[1..]);
        forall j: nat | LastCommit(log, verify, s.position, script, j) && j > 0
          ensures LastCommit(log, verify, t.position, script[1..], j - 1)
        {
          CommitsAtShift(log, verify, s.position, script, j);
        }
      } else {
        assert forall j: nat | j > 0 :: !CommitsAt(log, verify, s.position, script, j);
      }
    }
  }

  // Turn j is reached and fetches.
  predicate FetchesAt(log: seq<Message>, verify: (string, string) -> bool, from: nat, script: seq<Outcome>, j: nat)
    decreases |script|
  {
    script != [] &&
    if j == 0 then script[0].fetchOk && from < |log|
    else GoesOn(log, verify, from, script[0]) && FetchesAt(log, verify, from + 1, script[1..], j - 1)
  }

  predicate SucceedsAt(log: seq<Message>, verify: (string, string) -> bool, from: nat, script: seq<Outcome>, j: nat) {
    && FetchesAt(log, verify, from, script, j)
    && j < |script| && from + j < |log| && Signed(log[from + j], verify) && script[j].handlerOk
  }

  // The position passes exactly the messages that are fetched, and a message succeeds in a session
  // exactly when its turn is reached, its signature verifies and its handler returns no error.
  lemma {:induction false} PassedAndSucceeded(log: seq<Message>, verify: (string, string) -> bool, s: State, script: seq<Outcome>, j: nat)
    ensures var t, at := Session(log, verify, s, script), s.position + j;
            && (t.position > at <==> FetchesAt(log, verify, s.position, script, j))
            && (at in t.succeeded <==> at in s.succeeded || SucceedsAt(log, verify, s.position, script, j))
    decreases |script|
  {
    FetchIsInside(log, verify, s.position, script, j);
    if script != [] {
      var (t, on) := Turn(log, verify, s, script[0]);
      if on {
        if j > 0 {
          PassedAndSucceeded(log, verify, t, script[1..], j - 1);
        } else {
          SessionIsContiguous(log, verify, t, script[1..]);
          OnlyLaterSucceed(log, verify, t, script[1..], s.position);
        }
      }
    }
  }

  lemma {:induction false} FetchIsInside(log: seq<Message>, verify: (string, string) -> bool, from: nat, script: seq<Outcome>, j: nat)
    ensures FetchesAt(log, verify, from, script, j) ==> j < |script| && from + j < |log|
    decreases |script|
  {
    if script != [] && j > 0 { FetchIsInside(log, verify, from + 1, script[1..], j - 1); }
  }

  lemma {:induction false} OnlyLaterSucceed(log: seq<Message>, verify: (string, string) -> bool, s: State, script: seq<Outcome>, at: nat)
    requires at < s.position
    ensures at in Session(log, verify, s, script).succeeded <==> at in s.succeeded
    decreases |script|
  {
    if script != [] {
      var (t, on) := Turn(log, verify, s, script[0]);
      if on { OnlyLaterSucceed(log, verify, t, script[1..], at); }
    }
  }

  // A session in which nothing fails commits everything it fetches.
  lemma {:induction false} CleanSession(log: seq<Message>, verify: (string, string) -> bool, s: State, script: seq<Outcome>)
    requires s.position <= |log| && forall o | o in script :: o.fetchOk && o.handlerOk && o.commitOk
    requires forall at | s.position <= at < |log| :: Signed(log[at], verify)
    ensures var t := Session(log, verify, s, script);
            && t.position == (if s.position + |script| < |log| then s.position + |script| else |log|)
            && (t.position > s.position ==> t.committed == t.position)
    decreases |script|
  {
    if script != [] {
      assert script[0] in script && forall o | o in script[1..] :: o in script;
      var (t, on) := Turn(log, verify, s, script[0]);
      if on { CleanSession(log, verify, t, script[1..]); }
    }
  }

  // Main result: commits are cumulative, so in any session a message not handled before is lost
  // exactly when its own turn fails and a later turn commits.
  lemma {:induction false} LostIff(log: seq<Message>, verify: (string, string) -> bool, s: State, script: seq<Outcome>, at: nat)
    requires s.position <= at && s.committed <= at && at !in s.succeeded
    ensures Lost(Session(log, verify, s, script), at) <==>
            && at - s.position < |script| && !Succeeds(log, verify, at, script[at - s.position])
            && CommitsAfter(log, verify, s.position, script, at - s.position)
    decreases |script|
  {
    if script != [] {
      var (t, on) := Turn(log, verify, s, script[0]);
      CommitsAtShift(log, verify, s.position, script, at - s.position);
      if on {
        if s.position == at {
          LostOnceBehind(log, verify, t, script[1..], at);
        } else {
          LostIff(log, verify, t, script[1..], at);
        }
      }
    }
  }

  lemma CommitsAtShift(log: seq<Message>, verify: (string, string) -> bool, from: nat, script: seq<Outcome>, k: nat)
    requires script != []
    ensures CommitsAfter(log, verify, from, script, k) <==>
            GoesOn(log, verify, from, script[0]) && CommitsAfter(log, verify, from + 1, script[1..], k - 1)
    ensures CommitsAfter(log, verify, from, script, -1) <==>
            CommitsAt(log, verify, from, script, 0) || CommitsAfter(log, verify, from, script, 0)
  {
    var next, rest := from + 1, script[1..];
    if j: nat :| k < j && CommitsAt(log, verify, from, script, j) {
      assert CommitsAt(log, verify, next, rest, j - 1);
    }
    if GoesOn(log, verify, from, script[0]) && CommitsAfter(log, verify, next, rest, k - 1) {
      var before := k - 1;
      var j: nat :| before < j && CommitsAt(log, verify, next, rest, j);
      assert CommitsAt(log, verify, from, script, j + 1);
    }
  }

  // A message the position has passed is lost as soon as anything later is committed.
  lemma {:induction false} LostOnceBehind(log: seq<Message>, verify: (string, string) -> bool, s: State, script: seq<Outcome>, at: nat)
    requires at < s.position
    ensures Lost(Session(log, verify, s, script), at) <==>
            at !in s.succeeded && (at < s.committed || CommitsAfter(log, verify, s.position, script, -1))
    decreases |script|
  {
    if script != [] {
      var (t, on) := Turn(log, verify, s, script[0]);
      CommitsAtShift(log, verify, s.position, script, 0);
      if on {
        LostOnceBehind(log, verify, t, script[1..], at);
      }
    }
  }

  lemma {:induction false} OffsetsAreAbove(lo: nat, hi: nat, at: nat)
    requires at in Offsets(lo, hi)
    ensures lo <= at < hi
    decreases hi - lo
  {
    if at != lo { OffsetsAreAbove(lo + 1, hi, at); }
  }

  lemma {:induction false} LostSurvives(log: seq<Message>, verify: (string, string) -> bool, s: State, script: seq<Outcome>, at: nat)
    requires Lost(s, at) && s.committed <= s.position
    ensures Lost(Session(log, verify, s, script), at)
    decreases |script|
  {
    if script != [] {
      var (t, on) := Turn(log, verify, s, script[0]);
      if on {
        LostSurvives(log, verify, t, script[1..], at);
      }
    }
  }

  // What is lost stays lost: whatever sessions follow, they only deliver later messages.
  lemma {:induction false} LostForGood(log: seq<Message>, verify: (string, string) -> bool, scripts: seq<seq<Outcome>>,
                                       more: seq<seq<Outcome>>, at: nat)
    requires Lost(Life(log, verify, scripts), at)
    ensures var s, t := Life(log, verify, scripts), Life(log, verify, scripts + more);
            && Lost(t, at)
            && s.fetched <= t.fetched
            && forall k | |s.fetched| <= k < |t.fetched| :: t.fetched[k] > at
    decreases |more|
  {
    if more == [] {
      assert scripts + more == scripts;
    } else {
      var before, last := scripts + more[..|more| - 1], more[|more| - 1];
      LostForGood(log, verify, scripts, more[..|more| - 1], at);
      assert scripts + more == before + [last];
      assert (before + [last])[..|before|] == before;
      RestartRedeliversFromCommitted(log, verify, before, last);
      var s, t := Life(log, verify, before), Life(log, verify, before + [last]);
      LostSurvives(log, verify, Restart(s), last, at);
      forall k | |s.fetched| <= k < |t.fetched| ensures t.fetched[k] > at {
        OffsetsAreAbove(s.committed, t.position, t.fetched[k]);
      }
    }
  }
}
