/** The batch monitor of server/EmailMonitor.py: for every listening user,
    connect to the mailbox, process each UNSEEN message with its failures
    isolated, and log out. The IMAP session, the classifier and the
    two-argument `prosses_Email` (not part of this model) are parameters. */
module EmailMonitor {
  import opened Common
  import opened MailMessage

  /** One call of `prosses_Email(answer, email_address)`; the answer is None
      when the classifier returned no parsed classification. */
  datatype ProcessCall = ProcessCall(answer: Option<Classification>, owner: string)

  /** The `prosses_Email` calls made for a run of message outcomes, in
      order: one per message that reached a classifier answer (even an
      empty one) and none for a message that failed. */
  function Calls(outs: seq<MessageOutcome>, owner: string): seq<ProcessCall>
  {
    if outs == [] then []
    else
      var last := outs[|outs| - 1];
      Calls(outs[..|outs| - 1], owner) + (if last.Classified? then [ProcessCall(last.answer, owner)] else [])
  }

  lemma {:induction false} CallsAppend(a: seq<MessageOutcome>, b: seq<MessageOutcome>, owner: string)
    ensures Calls(a + b, owner) == Calls(a, owner) + Calls(b, owner)
    decreases |b|
  {
    if b == [] {
      assert a + b == a;
    } else {
      var ab := a + b;
      assert ab[..|ab| - 1] == a + b[..|b| - 1];
      assert ab[|ab| - 1] == b[|b| - 1];
      CallsAppend(a, b[..|b| - 1], owner);
    }
  }

  /** A message that fails at any stage produces no call and does not
      disturb the calls for the messages before and after it. */
  lemma CallsSkipFailed(outs: seq<MessageOutcome>, k: nat, owner: string)
    requires k < |outs| && !outs[k].Classified?
    ensures Calls(outs, owner) == Calls(outs[..k], owner) + Calls(outs[k + 1..], owner)
  {
    assert outs == outs[..k] + [outs[k]] + outs[k + 1..];
    CallsAppend(outs[..k] + [outs[k]], outs[k + 1..], owner);
    CallsAppend(outs[..k], [outs[k]], owner);
    assert [outs[k]][..0] == [];
  }

  /** `prosses_Email` is called for exactly the classified messages, once
      each, in message order, always with the mailbox owner's address. */
  lemma {:induction false} CallsExactlyClassified(outs: seq<MessageOutcome>, owner: string)
    ensures forall c :: c in Calls(outs, owner) <==> c.owner == owner && Classified(c.answer) in outs
    ensures |Calls(outs, owner)| <= |outs|
    decreases |outs|
  {
    if outs != [] {
      var init := outs[..|outs| - 1];
      CallsExactlyClassified(init, owner);
      assert outs == init + [outs[|outs| - 1]];
    }
  }

  /** `check_for_new_emails` of server/EmailMonitor.py: a failing select or
      search propagates (searched is false); otherwise every UNSEEN message
      is visited exactly once, in search order, a failure of one message is
      logged and the loop goes on with the next, and `prosses_Email` is
      called for each message the classifier answered, with None when the
      answer could not be parsed. Whether that call raises does not change
      the loop: the error is logged and the next message follows. */
  method CheckForNewEmails(s: Session, owner: string, classify: Classifier)
    returns (searched: bool, outcomes: seq<MessageOutcome>, calls: seq<ProcessCall>)
    ensures searched <==> s.unseen.Some?
    ensures !searched ==> outcomes == [] && calls == []
    ensures searched ==> outcomes == Outcomes(s, s.unseen.value, ContentLabel, classify)
    ensures searched ==> |outcomes| == |s.unseen.value|
    ensures searched ==> forall k :: 0 <= k < |outcomes| ==> outcomes[k] == Outcome(s, s.unseen.value[k], ContentLabel, classify)
    ensures calls == Calls(outcomes, owner)
  {
    outcomes, calls := [], [];
    if s.unseen.None? {
      return false, outcomes, calls;
    }
    searched := true;
    var nums := s.unseen.value;
    for i := 0 to |nums|
      invariant outcomes == Outcomes(s, nums[..i], ContentLabel, classify)
      invariant calls == Calls(outcomes, owner)
    {
      assert nums[..i + 1][..i] == nums[..i];
      var o := PrepareMessage(s, nums[i], ContentLabel, classify);
      ghost var before := outcomes;
      outcomes := outcomes + [o];
      assert outcomes[..|outcomes| - 1] == before;
      if o.Classified? {
        calls := calls + [ProcessCall(o.answer, owner)];
      }
    }
    assert nums[..|nums|] == nums;
    OutcomesAt(s, nums, ContentLabel, classify);
  }

  /** What `connect_to_email(email, password)` yields: a selected session,
      or None when connecting or logging in raises. */
  type Connector = (string, string) -> Option<Session>

  /** The success flag `check_inbox` returns for a mailbox. */
  predicate InboxOk(connect: Connector, email: string, password: string)
  {
    connect(email, password).Some? && connect(email, password).value.unseen.Some?
  }

  /** `check_inbox`: never raises; true exactly when connecting and
      `check_for_new_emails` both succeed; logout is attempted exactly when
      a connection was made. `logoutOk` is whether `imap.logout()` returns
      normally: when it raises, the error is logged and neither escapes nor
      changes the result, which does not depend on `logoutOk` at all. */
  method CheckInbox(connect: Connector, email: string, password: string, classify: Classifier, logoutOk: bool)
    returns (ok: bool, logoutAttempted: bool, logoutErrorLogged: bool, escapes: bool, calls: seq<ProcessCall>)
    ensures !escapes
    ensures ok <==> InboxOk(connect, email, password)
    ensures logoutAttempted <==> connect(email, password).Some?
    ensures logoutErrorLogged <==> logoutAttempted && !logoutOk
    ensures calls == if connect(email, password).Some? && connect(email, password).value.unseen.Some?
                     then Calls(Outcomes(connect(email, password).value, connect(email, password).value.unseen.value, ContentLabel, classify), email)
                     else []
  {
    escapes, logoutErrorLogged := false, false;
    var session := connect(email, password);
    if session.None? {
      return false, false, false, false, [];
    }
    var searched, _, c := CheckForNewEmails(session.value, email, classify);
    ok, calls := searched, c;
    logoutAttempted := true;
    if !logoutOk {
      logoutErrorLogged := true;
    }
  }

  /** A user record as `fetch_all_users` returns it. */
  datatype User = User(email: string, appPassword: string, listening: bool)

  /** The users whose `listening` flag is set, in list order. */
  function Listening(users: seq<User>): seq<User>
  {
    if users == [] then []
    else Listening(users[..|users| - 1]) + (if users[|users| - 1].listening then [users[|users| - 1]] else [])
  }

  /** A user is checked iff it is in the list and listening. */
  lemma {:induction false} ListeningMembers(users: seq<User>)
    ensures forall u :: u in Listening(users) <==> u in users && u.listening
    ensures |Listening(users)| <= |users|
    decreases |users|
  {
    if users != [] {
      var init := users[..|users| - 1];
      ListeningMembers(init);
      assert users == init + [users[|users| - 1]];
    }
  }

  /** Listening users keep their list order: filtering a list split in two
      is filtering each half. */
  lemma {:induction false} ListeningAppend(a: seq<User>, b: seq<User>)
    ensures Listening(a + b) == Listening(a) + Listening(b)
    decreases |b|
  {
    if b == [] {
      assert a + b == a;
    } else {
      var ab := a + b;
      assert ab[..|ab| - 1] == a + b[..|b| - 1];
      assert ab[|ab| - 1] == b[|b| - 1];
      ListeningAppend(a, b[..|b| - 1]);
    }
  }

  /** `run_once`: when the user fetch yields a non-empty list, `check_inbox`
      runs once for each listening user, in list order, and the others are
      skipped; when it yields None or an empty list no inbox is checked.
      `logoutOk` gives, per address, whether logging out of it succeeds. */
  method RunOnce(fetched: Option<seq<User>>, connect: Connector, classify: Classifier, logoutOk: string -> bool)
    returns (checked: seq<User>, results: seq<bool>)
    ensures checked == if fetched.Some? then Listening(fetched.value) else []
    ensures |results| == |checked|
    ensures forall k :: 0 <= k < |checked| ==> results[k] == InboxOk(connect, checked[k].email, checked[k].appPassword)
  {
    checked, results := [], [];
    if fetched.None? || fetched.value == [] {
      return;
    }
    var users := fetched.value;
    for i := 0 to |users|
      invariant checked == Listening(users[..i])
      invariant |results| == |checked|
      invariant forall k :: 0 <= k < |checked| ==> results[k] == InboxOk(connect, checked[k].email, checked[k].appPassword)
    {
      assert users[..i + 1][..i] == users[..i];
      var user := users[i];
      if user.listening {
        var ok, _, _, _, _ := CheckInbox(connect, user.email, user.appPassword, classify, logoutOk(user.email));
        checked, results := checked + [user], results + [ok];
      }
    }
    assert users[..|users|] == users;
  }
}
