/** The earlier single-account monitor of server/server.py: it posts a new
    application for every message classified as type 1, processes the
    UNSEEN messages with no per-message error handling, and repeats the
    check until something raises. IMAP, `requests.post` and the classifier
    are parameters. */
module LegacyMonitor {
  import opened Common
  import opened MailMessage
  import ApplicationStore

  /** The JSON body `prosses_Email` posts. */
  datatype ApplicationPost = ApplicationPost(email: string, companyName: string, jobTitle: string, status: string)

  const ApplicationsPath := "/applications"

  /** A POST of `body` to `path` on the store's API. */
  datatype PostRequest = PostRequest(path: string, body: ApplicationPost)

  /** `prosses_Email`: the request it sends for one classification, if any.
      Only type 1 (a confirmation of receipt) sends something: one POST to
      /applications carrying the configured `EMAIL_ADDRESS`, passed here as
      `account`, as email and the classifier's company, job title and status
      unchanged. */
  function ProssesEmail(c: Classification, account: string): (r: Option<PostRequest>)
    ensures r.Some? <==> c.kind == 1
    ensures r.Some? ==> r.value.path == ApplicationsPath && r.value.body.email == account
    ensures r.Some? ==> r.value.body.companyName == c.companyName && r.value.body.jobTitle == c.jobTitle
    ensures r.Some? ==> r.value.body.status == c.status
  {
    if c.kind == 1 then Some(PostRequest(ApplicationsPath, ApplicationPost(account, c.companyName, c.jobTitle, c.status)))
    else None
  }

  /** The posted body passes the store's request validation exactly when
      the classifier's status string is one of the enumeration's display
      strings; the body always names a status, so the default never applies
      to these posts. Passing validation does not mean the row is inserted:
      `create_application` can still answer 409 or 400. */
  lemma PostAcceptedIff(c: Classification, account: string)
    requires c.kind == 1
    ensures var b := ProssesEmail(c, account).value.body;
      ApplicationStore.ParseApplication(b.email, b.companyName, b.jobTitle, Some(b.status)).Success?
      <==> ApplicationStore.IsStatusValue(c.status)
  {
  }

  /** The status the classifier's prompt asks for with type 1, "Pending", is
      not a display string of the enumeration, so a post carrying it is
      refused with 422 before `create_application` runs. "Accepted", one of
      the prompt's type-2 statuses, would be refused too, but type 2 is never
      posted. */
  lemma PromptStatusesRefused(c: Classification, account: string)
    requires c.kind == 1 && (c.status == "Pending" || c.status == "Accepted")
    ensures var b := ProssesEmail(c, account).value.body;
      ApplicationStore.ParseApplication(b.email, b.companyName, b.jobTitle, Some(b.status)).Failure?
  {
  }

  /** The POST one message outcome sends, if any. */
  function PostOf(o: MessageOutcome, account: string): seq<PostRequest>
  {
    if o.Classified? && o.answer.Some? && ProssesEmail(o.answer.value, account).Some?
    then [ProssesEmail(o.answer.value, account).value] else []
  }

  /** The POSTs sent for a run of message outcomes, in order. */
  function Posts(outs: seq<MessageOutcome>, account: string): seq<PostRequest>
  {
    if outs == [] then []
    else Posts(outs[..|outs| - 1], account) + PostOf(outs[|outs| - 1], account)
  }

  lemma PostsSnoc(outs: seq<MessageOutcome>, o: MessageOutcome, account: string)
    ensures Posts(outs + [o], account) == Posts(outs, account) + PostOf(o, account)
  {
    assert (outs + [o])[..|outs|] == outs;
  }

  lemma {:induction false} PostsAppend(a: seq<MessageOutcome>, b: seq<MessageOutcome>, account: string)
    ensures Posts(a + b, account) == Posts(a, account) + Posts(b, account)
    decreases |b|
  {
    if b == [] {
      assert a + b == a;
    } else {
      var init, last := b[..|b| - 1], b[|b| - 1];
      assert a + b == (a + init) + [last];
      assert b == init + [last];
      calc {
        Posts(a + b, account);
        { PostsSnoc(a + init, last, account); }
        Posts(a + init, account) + PostOf(last, account);
        { PostsAppend(a, init, account); }
        Posts(a, account) + Posts(init, account) + PostOf(last, account);
        { PostsSnoc(init, last, account); }
        Posts(a, account) + Posts(b, account);
      }
    }
  }

  /** A POST is sent for exactly the messages classified as type 1, and
      carries that classification's fields. */
  lemma {:induction false} PostsOnlyForTypeOne(outs: seq<MessageOutcome>, account: string)
    ensures forall p :: p in Posts(outs, account) <==>
      exists c :: Classified(Some(c)) in outs && c.kind == 1 && p == PostRequest(ApplicationsPath, ApplicationPost(account, c.companyName, c.jobTitle, c.status))
    decreases |outs|
  {
    if outs != [] {
      var init := outs[..|outs| - 1];
      PostsOnlyForTypeOne(init, account);
      assert outs == init + [outs[|outs| - 1]];
    }
  }

  /** A message gets through the loop body without raising: it is fetched,
      decoded and classified with a parsed answer (on None, `prosses_Email`
      raises reading `.type`), and any POST it sends does not raise. */
  predicate StepSucceeds(o: MessageOutcome, account: string, postOk: PostRequest -> bool)
  {
    o.Classified? && o.answer.Some? &&
    (ProssesEmail(o.answer.value, account).Some? ==> postOk(ProssesEmail(o.answer.value, account).value))
  }

  /** Message `num` of the session gets through the loop body. */
  predicate MessageSucceeds(s: Session, num: nat, account: string, classify: Classifier, postOk: PostRequest -> bool)
  {
    StepSucceeds(Outcome(s, num, LegacyContentLabel, classify), account, postOk)
  }

  /** `check_for_new_emails` returns normally for the session. */
  predicate CheckSucceeds(s: Session, account: string, classify: Classifier, postOk: PostRequest -> bool)
  {
    s.unseen.Some? &&
    forall k :: 0 <= k < |s.unseen.value| ==> MessageSucceeds(s, s.unseen.value[k], account, classify, postOk)
  }

  /** `visited` are the outcomes of the first `|visited|` message numbers. */
  predicate VisitedPrefix(s: Session, nums: seq<nat>, visited: seq<MessageOutcome>, classify: Classifier)
  {
    |visited| <= |nums| &&
    forall j :: 0 <= j < |visited| ==> visited[j] == Outcome(s, nums[j], LegacyContentLabel, classify)
  }

  /** When every message of the search result was visited and got through,
      `check_for_new_emails` returns normally. */
  lemma AllStepsPassCheck(s: Session, visited: seq<MessageOutcome>, account: string, classify: Classifier, postOk: PostRequest -> bool)
    requires s.unseen.Some? && |visited| == |s.unseen.value| && VisitedPrefix(s, s.unseen.value, visited, classify)
    requires forall j :: 0 <= j < |visited| ==> StepSucceeds(visited[j], account, postOk)
    ensures CheckSucceeds(s, account, classify, postOk)
  {
    forall k | 0 <= k < |s.unseen.value| ensures MessageSucceeds(s, s.unseen.value[k], account, classify, postOk) {
      assert StepSucceeds(visited[k], account, postOk);
    }
  }

  /** A visited message that does not get through makes `check_for_new_emails` raise. */
  lemma FailedStepFailsCheck(s: Session, visited: seq<MessageOutcome>, k: nat, account: string, classify: Classifier, postOk: PostRequest -> bool)
    requires s.unseen.Some? && VisitedPrefix(s, s.unseen.value, visited, classify)
    requires k < |visited| && !StepSucceeds(visited[k], account, postOk)
    ensures !CheckSucceeds(s, account, classify, postOk)
  {
    assert !MessageSucceeds(s, s.unseen.value[k], account, classify, postOk);
  }

  /** The body of the message loop for one message number: its outcome, and
      the POST it sends, which exists exactly when the message is classified
      as type 1. */
  method HandleMessage(s: Session, num: nat, account: string, classify: Classifier)
    returns (o: MessageOutcome, post: Option<PostRequest>)
    ensures o == Outcome(s, num, LegacyContentLabel, classify)
    ensures post.Some? <==> o.Classified? && o.answer.Some? && o.answer.value.kind == 1
    ensures post.Some? ==> post == ProssesEmail(o.answer.value, account)
  {
    post := None;
    var fetched := s.fetch(num);
    if fetched.None? {
      return FetchFailed, post;
    }
    var e := fetched.value;
    var subject := FirstChunkText(e.subject);
    if subject.None? {
      return HeaderFailed, post;
    }
    var from := FirstChunkText(e.from);
    if from.None? {
      return HeaderFailed, post;
    }
    var content := GetEmailContentQuietly(e.body);
    var reply := classify(ClassifierText(from.value, subject.value, LegacyContentLabel, content));
    if reply.Raised? {
      return ClassifyFailed, post;
    }
    o := Classified(reply.parsed);
    if reply.parsed.Some? {
      post := ProssesEmail(reply.parsed.value, account);
    }
  }

  /** How `check_for_new_emails` ends: select or search raised, every
      message was processed, or message `at` raised and ended the loop. */
  datatype CheckExit = SearchFailed | AllProcessed | Aborted(at: nat)

  /** `check_for_new_emails` of server/server.py: messages are processed in
      search order with no per-message handler, so the first message that
      raises stops the loop and no later message is fetched. `visited` are
      the outcomes of the messages reached and `posts` the POSTs sent (the
      one that raised included). */
  method CheckForNewEmails(s: Session, account: string, classify: Classifier, postOk: PostRequest -> bool)
    returns (exit: CheckExit, visited: seq<MessageOutcome>, posts: seq<PostRequest>)
    ensures exit.SearchFailed? <==> s.unseen.None?
    ensures exit.SearchFailed? ==> visited == [] && posts == []
    ensures exit.AllProcessed? ==> CheckSucceeds(s, account, classify, postOk)
    ensures CheckSucceeds(s, account, classify, postOk) ==> exit.AllProcessed?
    ensures exit.AllProcessed? ==> |visited| == |s.unseen.value|
    ensures exit.Aborted? ==>
      && exit.at < |s.unseen.value|
      && |visited| == exit.at + 1
      && (forall j :: 0 <= j < exit.at ==> StepSucceeds(visited[j], account, postOk))
      && !StepSucceeds(visited[exit.at], account, postOk)
    ensures s.unseen.Some? ==> forall j :: 0 <= j < |visited| ==> visited[j] == Outcome(s, s.unseen.value[j], LegacyContentLabel, classify)
    ensures posts == Posts(visited, account)
  {
    visited, posts := [], [];
    if s.unseen.None? {
      return SearchFailed, visited, posts;
    }
    var nums := s.unseen.value;
    var i := 0;
    while i < |nums|
      invariant 0 <= i <= |nums|
      invariant |visited| == i
      invariant VisitedPrefix(s, nums, visited, classify)
      invariant forall j :: 0 <= j < i ==> StepSucceeds(visited[j], account, postOk)
      invariant posts == Posts(visited, account)
    {
      var o, post := HandleMessage(s, nums[i], account, classify);
      PostsSnoc(visited, o, account);
      assert PostOf(o, account) == if post.Some? then [post.value] else [];
      visited := visited + [o];
      if post.Some? {
        posts := posts + [post.value];
      }
      if !StepSucceeds(o, account, postOk) {
        FailedStepFailsCheck(s, visited, i, account, classify, postOk);
        return Aborted(i), visited, posts;
      }
      i := i + 1;
    }
    AllStepsPassCheck(s, visited, account, classify, postOk);
    exit := AllProcessed;
  }

  /** How `monitor_inbox` ends: connecting raised (caught and printed), the
      check of round `round` raised (caught and printed), or the process was
      interrupted while sleeping after the last round given. */
  datatype MonitorExit = ConnectFailed | CheckRaised(round: nat) | Interrupted

  /** `monitor_inbox`: after connecting, check and sleep alternate until a
      check raises. `rounds` are the states of the one session at the
      successive checks; running out of them stands for the interrupt
      signal, whose exit passes through the handler. The session is logged
      out whenever `imap` was assigned, so never after a failed connect; a
      logout error is not caught and escapes, as does the interrupt. */
  method MonitorInbox(connected: bool, rounds: seq<Session>, account: string,
                      classify: Classifier, postOk: PostRequest -> bool, logoutOk: bool)
    returns (exit: MonitorExit, checks: nat, sleeps: nat, logoutAttempted: bool, escapes: bool)
    ensures logoutAttempted <==> connected
    ensures !connected <==> exit.ConnectFailed?
    ensures !connected ==> checks == 0 && sleeps == 0
    ensures exit.CheckRaised? ==>
      && exit.round < |rounds| && checks == exit.round + 1 && sleeps == exit.round
      && (forall j :: 0 <= j < exit.round ==> CheckSucceeds(rounds[j], account, classify, postOk))
      && !CheckSucceeds(rounds[exit.round], account, classify, postOk)
    ensures exit.Interrupted? ==>
      checks == |rounds| && sleeps == |rounds| && forall j :: 0 <= j < |rounds| ==> CheckSucceeds(rounds[j], account, classify, postOk)
    ensures escapes <==> exit.Interrupted? || (connected && !logoutOk)
  {
    checks, sleeps := 0, 0;
    if !connected {
      return ConnectFailed, checks, sleeps, false, false;
    }
    exit := Interrupted;
    var i := 0;
    while i < |rounds|
      invariant 0 <= i <= |rounds|
      invariant checks == i && sleeps == i
      invariant forall j :: 0 <= j < i ==> CheckSucceeds(rounds[j], account, classify, postOk)
    {
      var e, _, _ := CheckForNewEmails(rounds[i], account, classify, postOk);
      checks := checks + 1;
      if !e.AllProcessed? {
        exit := CheckRaised(i);
        break;
      }
      sleeps := sleeps + 1;
      i := i + 1;
    }
    logoutAttempted := true;
    escapes := exit.Interrupted? || !logoutOk;
  }
}
