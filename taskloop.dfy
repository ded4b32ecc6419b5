/** `TaskLoop.run_next`: one dispatch step of the sign-in state machine. The
    live page is given as observations, and the clicks, fills and checks the
    step performs come back as a list of actions beside the signal. */
module TaskLoop {
  import opened Common
  import opened Poller

  // The four signals of TaskLoop (integers, as in the script).
  const ALL_DONE_COOKIE_FOUND: int := 0
  const TASK_DONE: int := 1
  const EMPTY_MILE: int := 2
  const MFA_FAILED: int := 3

  /** The codes run_next can return. */
  predicate IsSignal(code: int) {
    code == ALL_DONE_COOKIE_FOUND || code == TASK_DONE || code == EMPTY_MILE || code == MFA_FAILED
  }

  const MSFT_LOGIN_HOST := "login.microsoftonline.com"
  const NO_ASSERTION_TEXT := "No Assertion Received. Please sign in again."
  const PRE_SIGN_IN_TEXT := "Pre Sign-In Notification"
  const MAX_SESSIONS_TEXT := "You have reached the maximum number of open user sessions"
  const OTHER_SESSIONS_TEXT := "There are already other user sessions in progress"
  const SESSION_COOKIE := "DSID"

  // Selectors the step acts on.
  const SUBMIT := "input[type='submit']"
  const PREAUTH_PROCEED := "[name='sn-preauth-proceed']"
  const LOGINFMT := "[name='loginfmt']"
  const PASSWD := "[name='passwd']"
  const OTC := "[name='otc']"
  const REMEMBER_MFA := "[name='rememberMFA']"
  const DONT_SHOW_AGAIN := "[name='DontShowAgain']"
  const POSTFIX_SID := "[name='postfixSID']"
  const BTN_CONTINUE := "[name='btnContinue']"

  // The poll that waits for the code to be accepted or rejected.
  const MFA_CHECK_ID := "mfa_check_is_ok"
  const MFA_POLL_DELAY_MS: nat := 300
  const MFA_POLL_INITIAL_DELAY_MS: nat := 300
  /** The browser's default timeout, 15 seconds, which the poll is evidently
      meant to be given. */
  const MFA_POLL_TIMEOUT_MS: nat := 15_000
  /** What the script passes: `default_timeout_seconds * 1000` as a number of
      seconds, that is 15000 seconds. */
  const MFA_POLL_TIMEOUT_AS_WRITTEN_MS: nat := 15 * 1000 * 1000

  datatype Cookie = Cookie(name: string, value: string)

  datatype Credentials = Credentials(email: string, password: string)

  /** What the step can observe of the page at one moment. */
  datatype Page = Page(
    url: string,
    content: string,
    loginfmtOnScreen: bool,      // [name='loginfmt']:not(.moveOffScreen) is visible
    passwdVisible: bool,         // [name='passwd'] is visible
    otcVisible: bool,            // [name='otc'] is visible
    rememberMfaEnabled: bool,    // [name='rememberMFA'] is enabled
    dontShowAgainVisible: bool,  // [name='DontShowAgain'] is visible
    cookies: seq<Cookie>)        // the browser context's cookies for the server URL

  datatype Action = Click(selector: string) | Fill(selector: string, text: string) | Check(selector: string)

  /** What run_next ends with: a signal and its payload, or an exception. */
  datatype Outcome = Signalled(code: int, payload: Option<string>) | Threw(error: Error)

  datatype Step = Step(outcome: Outcome, actions: seq<Action>)

  /** The index of the first cookie with the given name (`next(filter(...), None)`). */
  function FindCookie(cookies: seq<Cookie>, name: string): (r: Option<nat>)
    ensures r.Some? ==> r.value < |cookies| && cookies[r.value].name == name
    ensures r.Some? ==> forall j :: 0 <= j < r.value ==> cookies[j].name != name
    ensures r.None? <==> forall j :: 0 <= j < |cookies| ==> cookies[j].name != name
  {
    if |cookies| == 0 then None
    else if cookies[0].name == name then Some(0)
    else match FindCookie(cookies[1..], name)
      case None => None
      case Some(k) => Some(k + 1)
  }

  /** The header fragment printed for a cookie: its name and value can be
      read back from it, around a single `=` and a closing `;`. */
  function CookieHeader(c: Cookie): (h: string)
    ensures |h| == |c.name| + |c.value| + 2
    ensures h[..|c.name|] == c.name && h[|c.name|] == '='
    ensures h[|c.name| + 1..|h| - 1] == c.value && h[|h| - 1] == ';'
  {
    c.name + "=" + c.value + ";"
  }

  /** The code step's actions: fill the code, tick "remember" when the box is
      enabled, submit. */
  function MfaActions(otp: string, rememberMfaEnabled: bool): (a: seq<Action>)
    ensures |a| == if rememberMfaEnabled then 3 else 2
    ensures a[0] == Fill(OTC, otp) && a[|a| - 1] == Click(SUBMIT)
    ensures Check(REMEMBER_MFA) in a <==> rememberMfaEnabled
  {
    [Fill(OTC, otp)] + (if rememberMfaEnabled then [Check(REMEMBER_MFA)] else []) + [Click(SUBMIT)]
  }

  /** The signal after the code poll: the code was rejected exactly when the
      code field is still present; a poll that times out or fails raises. */
  function MfaVerdict(status: PollStatus, otcStillPresent: bool): (o: Outcome)
    ensures o == Signalled(MFA_FAILED, None) <==> status == Succeeded && otcStillPresent
    ensures o == Signalled(TASK_DONE, None) <==> status == Succeeded && !otcStillPresent
    ensures o.Threw? <==> status != Succeeded
    ensures status == TimedOut ==> o == Threw(PollTimeout(MFA_CHECK_ID))
    ensures status.Aborted? ==> o == Threw(status.error)
  {
    match status
    case Succeeded => if otcStillPresent then Signalled(MFA_FAILED, None) else Signalled(TASK_DONE, None)
    case TimedOut => Threw(PollTimeout(MFA_CHECK_ID))
    case Aborted(e) => Threw(e)
  }

  /** The poll after the code is submitted: every 300 ms, after a first wait
      of 300 ms, for `timeout` milliseconds. The script passes
      MFA_POLL_TIMEOUT_AS_WRITTEN_MS; MFA_POLL_TIMEOUT_MS is the evident intent.
      It evaluates the check at least once and at most timeout / 300 + 1
      times, and only a non-transient error escapes it. */
  function MfaPoll(mfaCheck: nat -> Evaluation, timeout: nat): (r: PollOutcome)
    ensures 1 <= r.evaluations <= timeout / MFA_POLL_DELAY_MS + 1
    ensures r.status == TimedOut <==> forall j :: 0 <= j < timeout / MFA_POLL_DELAY_MS + 1 ==> Failed(mfaCheck(j))
    ensures r.status.Aborted? ==> !IsTransient(r.status.error)
  {
    PollBounded(mfaCheck, timeout, MFA_POLL_DELAY_MS, MFA_POLL_INITIAL_DELAY_MS);
    Poll(mfaCheck, timeout, MFA_POLL_DELAY_MS, MFA_POLL_INITIAL_DELAY_MS)
  }

  /** Signatures 4 to 10: everything run_next tests after the email step, on
      the page as it is at that point. */
  function FromPassword(domain: string, creds: Credentials, otp: string, page: Page,
                        mfaCheck: nat -> Evaluation, mfaTimeout: nat, otcAfterPoll: bool): (r: Step)
    ensures r.outcome.Signalled? ==> IsSignal(r.outcome.code)
    ensures r.outcome.Signalled? ==> (r.outcome.payload.Some? <==> r.outcome.code == ALL_DONE_COOKIE_FOUND)
    ensures r.outcome.Threw? ==> !IsTransient(r.outcome.error) && Matches(Otc, domain, page)
    ensures r.outcome == Signalled(EMPTY_MILE, None) ==> r.actions == []
  {
    if Contains(page.url, MSFT_LOGIN_HOST) && page.passwdVisible then
      Step(Signalled(TASK_DONE, None), [Fill(PASSWD, creds.password), Click(SUBMIT)])
    else if Contains(page.url, MSFT_LOGIN_HOST) && page.otcVisible then
      Step(MfaVerdict(MfaPoll(mfaCheck, mfaTimeout).status, otcAfterPoll), MfaActions(otp, page.rememberMfaEnabled))
    else if Contains(page.url, MSFT_LOGIN_HOST) && page.dontShowAgainVisible then
      Step(Signalled(TASK_DONE, None), [Check(DONT_SHOW_AGAIN), Click(SUBMIT)])
    else if Contains(page.url, domain) && Contains(page.content, MAX_SESSIONS_TEXT) then
      Step(Signalled(TASK_DONE, None), [Check(POSTFIX_SID), Click(BTN_CONTINUE)])
    else if Contains(page.url, domain) && Contains(page.content, OTHER_SESSIONS_TEXT) then
      Step(Signalled(TASK_DONE, None), [Click(BTN_CONTINUE)])
    else if Contains(page.url, domain) && FindCookie(page.cookies, SESSION_COOKIE).Some? then
      var c := page.cookies[FindCookie(page.cookies, SESSION_COOKIE).value];
      Step(Signalled(ALL_DONE_COOKIE_FOUND, Some(CookieHeader(c))), [])
    else
      Step(Signalled(EMPTY_MILE, None), [])
  }

  /** run_next. `page` is the page when the step starts; `afterEmail` is the
      page as re-read after the email has been submitted, on which the later
      tests run when the email step fires; `mfaCheck` is what the successive
      evaluations of the code poll's predicate do, `mfaTimeout` the poll's
      timeout in milliseconds (MFA_POLL_TIMEOUT_AS_WRITTEN_MS in the script),
      and `otcAfterPoll` whether the code field is still present once the
      poll is over. */
  function RunNext(domain: string, creds: Credentials, otp: string, page: Page, afterEmail: Page,
                   mfaCheck: nat -> Evaluation, mfaTimeout: nat, otcAfterPoll: bool): (r: Step)
    ensures r.outcome.Signalled? ==> IsSignal(r.outcome.code)
    ensures r.outcome.Signalled? ==> (r.outcome.payload.Some? <==> r.outcome.code == ALL_DONE_COOKIE_FOUND)
    ensures r.outcome.Threw? ==> !IsTransient(r.outcome.error)
  {
    if Contains(page.url, domain) && Contains(page.content, NO_ASSERTION_TEXT) then
      Step(Signalled(TASK_DONE, None), [Click(SUBMIT)])
    else if Contains(page.url, domain) && Contains(page.content, PRE_SIGN_IN_TEXT) then
      Step(Signalled(TASK_DONE, None), [Click(PREAUTH_PROCEED)])
    else if Contains(page.url, MSFT_LOGIN_HOST) && page.loginfmtOnScreen then
      // no return: the later tests run on the re-rendered page
      var rest := FromPassword(domain, creds, otp, afterEmail, mfaCheck, mfaTimeout, otcAfterPoll);
      Step(rest.outcome, [Fill(LOGINFMT, creds.email), Click(SUBMIT)] + rest.actions)
    else
      FromPassword(domain, creds, otp, page, mfaCheck, mfaTimeout, otcAfterPoll)
  }

  // ---------------------------------------------------------------------
  // The same step as an ordered table of page signatures.

  datatype Signature =
    | NoAssertion | PreSignIn | Email | Password | Otc | StaySignedIn
    | MaxSessions | OtherSessions | SessionCookie

  /** Whether a page shows a signature. */
  predicate Matches(sig: Signature, domain: string, page: Page) {
    match sig
    case NoAssertion => Contains(page.url, domain) && Contains(page.content, NO_ASSERTION_TEXT)
    case PreSignIn => Contains(page.url, domain) && Contains(page.content, PRE_SIGN_IN_TEXT)
    case Email => Contains(page.url, MSFT_LOGIN_HOST) && page.loginfmtOnScreen
    case Password => Contains(page.url, MSFT_LOGIN_HOST) && page.passwdVisible
    case Otc => Contains(page.url, MSFT_LOGIN_HOST) && page.otcVisible
    case StaySignedIn => Contains(page.url, MSFT_LOGIN_HOST) && page.dontShowAgainVisible
    case MaxSessions => Contains(page.url, domain) && Contains(page.content, MAX_SESSIONS_TEXT)
    case OtherSessions => Contains(page.url, domain) && Contains(page.content, OTHER_SESSIONS_TEXT)
    case SessionCookie => Contains(page.url, domain) && FindCookie(page.cookies, SESSION_COOKIE).Some?
  }

  /** The signatures in the order run_next tests them. */
  const PRIORITY: seq<Signature> :=
    [NoAssertion, PreSignIn, Email, Password, Otc, StaySignedIn, MaxSessions, OtherSessions, SessionCookie]

  /** The position of the first signature of `order` the page shows, or |order|. */
  function FirstMatch(order: seq<Signature>, domain: string, page: Page): (k: nat)
    ensures k <= |order|
    ensures forall j :: 0 <= j < k ==> !Matches(order[j], domain, page)
    ensures k < |order| ==> Matches(order[k], domain, page)
  {
    if |order| == 0 then 0
    else if Matches(order[0], domain, page) then 0
    else 1 + FirstMatch(order[1..], domain, page)
  }

  lemma FirstMatchIs(order: seq<Signature>, domain: string, page: Page, k: nat)
    requires k <= |order|
    requires forall j :: 0 <= j < k ==> !Matches(order[j], domain, page)
    requires k < |order| ==> Matches(order[k], domain, page)
    ensures FirstMatch(order, domain, page) == k
  {
  }

  /** The action and signal of one signature other than the email one, which
      only acts and falls through. */
  function Perform(sig: Signature, domain: string, creds: Credentials, otp: string, page: Page,
                   mfaCheck: nat -> Evaluation, mfaTimeout: nat, otcAfterPoll: bool): Step
    requires sig != Email && Matches(sig, domain, page)
  {
    match sig
    case NoAssertion => Step(Signalled(TASK_DONE, None), [Click(SUBMIT)])
    case PreSignIn => Step(Signalled(TASK_DONE, None), [Click(PREAUTH_PROCEED)])
    case Password => Step(Signalled(TASK_DONE, None), [Fill(PASSWD, creds.password), Click(SUBMIT)])
    case Otc =>
      Step(MfaVerdict(MfaPoll(mfaCheck, mfaTimeout).status, otcAfterPoll), MfaActions(otp, page.rememberMfaEnabled))
    case StaySignedIn => Step(Signalled(TASK_DONE, None), [Check(DONT_SHOW_AGAIN), Click(SUBMIT)])
    case MaxSessions => Step(Signalled(TASK_DONE, None), [Check(POSTFIX_SID), Click(BTN_CONTINUE)])
    case OtherSessions => Step(Signalled(TASK_DONE, None), [Click(BTN_CONTINUE)])
    case SessionCookie =>
      Step(Signalled(ALL_DONE_COOKIE_FOUND,
                     Some(CookieHeader(page.cookies[FindCookie(page.cookies, SESSION_COOKIE).value]))), [])
  }

  /** Act on the first signature of `order` the page shows, or report an
      empty mile when it shows none. */
  function Respond(order: seq<Signature>, domain: string, creds: Credentials, otp: string, page: Page,
                   mfaCheck: nat -> Evaluation, mfaTimeout: nat, otcAfterPoll: bool): Step
    requires Email !in order
  {
    var k := FirstMatch(order, domain, page);
    if k == |order| then Step(Signalled(EMPTY_MILE, None), [])
    else Perform(order[k], domain, creds, otp, page, mfaCheck, mfaTimeout, otcAfterPoll)
  }

  /** The signatures tested after the email step. */
  const AFTER_EMAIL: seq<Signature> := PRIORITY[3..]

  /** run_next as a priority table: the first signature the page shows
      decides the step; the email signature alone submits the email and hands
      over to the signatures after it, on the re-rendered page. */
  function Dispatch(domain: string, creds: Credentials, otp: string, page: Page, afterEmail: Page,
                    mfaCheck: nat -> Evaluation, mfaTimeout: nat, otcAfterPoll: bool): Step
  {
    assert AFTER_EMAIL == [Password, Otc, StaySignedIn, MaxSessions, OtherSessions, SessionCookie];
    var k := FirstMatch(PRIORITY, domain, page);
    if k < |PRIORITY| && PRIORITY[k] == Email then
      var rest := Respond(AFTER_EMAIL, domain, creds, otp, afterEmail, mfaCheck, mfaTimeout, otcAfterPoll);
      Step(rest.outcome, [Fill(LOGINFMT, creds.email), Click(SUBMIT)] + rest.actions)
    else if k < |PRIORITY| then
      Perform(PRIORITY[k], domain, creds, otp, page, mfaCheck, mfaTimeout, otcAfterPoll)
    else
      Step(Signalled(EMPTY_MILE, None), [])
  }

  lemma FromPasswordFollowsPriority(domain: string, creds: Credentials, otp: string, page: Page,
                                    mfaCheck: nat -> Evaluation, mfaTimeout: nat, otcAfterPoll: bool)
    ensures FromPassword(domain, creds, otp, page, mfaCheck, mfaTimeout, otcAfterPoll)
         == Respond(AFTER_EMAIL, domain, creds, otp, page, mfaCheck, mfaTimeout, otcAfterPoll)
  {
    var o := AFTER_EMAIL;
    assert o == [Password, Otc, StaySignedIn, MaxSessions, OtherSessions, SessionCookie];
    if Matches(Password, domain, page) {
      FirstMatchIs(o, domain, page, 0);
    } else if Matches(Otc, domain, page) {
      FirstMatchIs(o, domain, page, 1);
    } else if Matches(StaySignedIn, domain, page) {
      FirstMatchIs(o, domain, page, 2);
    } else if Matches(MaxSessions, domain, page) {
      FirstMatchIs(o, domain, page, 3);
    } else if Matches(OtherSessions, domain, page) {
      FirstMatchIs(o, domain, page, 4);
    } else if Matches(SessionCookie, domain, page) {
      FirstMatchIs(o, domain, page, 5);
    } else {
      FirstMatchIs(o, domain, page, 6);
    }
  }

  /** The positions of the first three signatures, and the rest of the table. */
  lemma PriorityLayout()
    ensures PRIORITY[0] == NoAssertion && PRIORITY[1] == PreSignIn && PRIORITY[2] == Email
    ensures |PRIORITY| == 3 + |AFTER_EMAIL|
    ensures forall j :: 0 <= j < |AFTER_EMAIL| ==> PRIORITY[3 + j] == AFTER_EMAIL[j]
  {
  }

  lemma FirstMatchPastEmail(domain: string, page: Page)
    requires !Matches(NoAssertion, domain, page) && !Matches(PreSignIn, domain, page) && !Matches(Email, domain, page)
    ensures FirstMatch(PRIORITY, domain, page) == 3 + FirstMatch(AFTER_EMAIL, domain, page)
  {
    PriorityLayout();
    var k := FirstMatch(AFTER_EMAIL, domain, page);
    forall j | 0 <= j < 3 + k
      ensures !Matches(PRIORITY[j], domain, page)
    {
      if j >= 3 {
        assert PRIORITY[j] == AFTER_EMAIL[j - 3];
      }
    }
    FirstMatchIs(PRIORITY, domain, page, 3 + k);
  }

  /** run_next acts on the first signature, in priority order, that the page
      shows, and on no other; a matched email step alone carries on with the
      password test and what follows it, on the re-rendered page. */
  lemma RunNextFollowsPriority(domain: string, creds: Credentials, otp: string, page: Page, afterEmail: Page,
                               mfaCheck: nat -> Evaluation, mfaTimeout: nat, otcAfterPoll: bool)
    ensures RunNext(domain, creds, otp, page, afterEmail, mfaCheck, mfaTimeout, otcAfterPoll)
         == Dispatch(domain, creds, otp, page, afterEmail, mfaCheck, mfaTimeout, otcAfterPoll)
  {
    PriorityLayout();
    if Matches(NoAssertion, domain, page) {
      FirstMatchIs(PRIORITY, domain, page, 0);
    } else if Matches(PreSignIn, domain, page) {
      FirstMatchIs(PRIORITY, domain, page, 1);
    } else if Matches(Email, domain, page) {
      FirstMatchIs(PRIORITY, domain, page, 2);
      FromPasswordFollowsPriority(domain, creds, otp, afterEmail, mfaCheck, mfaTimeout, otcAfterPoll);
    } else {
      FirstMatchPastEmail(domain, page);
      FromPasswordFollowsPriority(domain, creds, otp, page, mfaCheck, mfaTimeout, otcAfterPoll);
    }
  }

  // ---------------------------------------------------------------------
  // What the step promises.

  /** The page the tests after the email step read: the re-rendered one when
      the email step fired, the original one otherwise. */
  function LaterPage(page: Page, afterEmail: Page): Page {
    if Contains(page.url, MSFT_LOGIN_HOST) && page.loginfmtOnScreen then afterEmail else page
  }

  /** The actions of the email step, when it fires. */
  function EmailActions(creds: Credentials, page: Page): seq<Action> {
    if Contains(page.url, MSFT_LOGIN_HOST) && page.loginfmtOnScreen then [Fill(LOGINFMT, creds.email), Click(SUBMIT)]
    else []
  }

  /** No signature that run_next tests before the session cookie matched. */
  predicate NoStepBeforeCookie(domain: string, page: Page, later: Page) {
    && !Matches(NoAssertion, domain, page) && !Matches(PreSignIn, domain, page)
    && !Matches(Password, domain, later) && !Matches(Otc, domain, later) && !Matches(StaySignedIn, domain, later)
    && !Matches(MaxSessions, domain, later) && !Matches(OtherSessions, domain, later)
  }

  /** ALL_DONE_COOKIE_FOUND is returned exactly when the URL contains the
      server domain, no earlier signature matched and a cookie is named DSID;
      the payload is then `DSID=<value>;` for the first such cookie. */
  lemma CookieFoundOnlyAtTarget(domain: string, creds: Credentials, otp: string, page: Page, afterEmail: Page,
                                mfaCheck: nat -> Evaluation, mfaTimeout: nat, otcAfterPoll: bool)
    ensures var r := RunNext(domain, creds, otp, page, afterEmail, mfaCheck, mfaTimeout, otcAfterPoll);
            var q := LaterPage(page, afterEmail);
            (r.outcome.Signalled? && r.outcome.code == ALL_DONE_COOKIE_FOUND) <==>
              (NoStepBeforeCookie(domain, page, q) && Contains(q.url, domain)
               && FindCookie(q.cookies, SESSION_COOKIE).Some?)
    ensures var r := RunNext(domain, creds, otp, page, afterEmail, mfaCheck, mfaTimeout, otcAfterPoll);
            var q := LaterPage(page, afterEmail);
            r.outcome.Signalled? && r.outcome.code == ALL_DONE_COOKIE_FOUND ==>
              var c := q.cookies[FindCookie(q.cookies, SESSION_COOKIE).value];
              c.name == SESSION_COOKIE && r.outcome.payload == Some("DSID=" + c.value + ";")
  {
    var r := RunNext(domain, creds, otp, page, afterEmail, mfaCheck, mfaTimeout, otcAfterPoll);
    var q := LaterPage(page, afterEmail);
    if r.outcome.Signalled? && r.outcome.code == ALL_DONE_COOKIE_FOUND {
      var c := q.cookies[FindCookie(q.cookies, SESSION_COOKIE).value];
      assert r.outcome.payload == Some(CookieHeader(c));
      assert c.name == "DSID";
      assert "DSID" + "=" == "DSID=";
    }
  }

  /** The code step: fill the code, tick "remember" only when it is enabled,
      submit, poll; the code was rejected (MFA_FAILED) exactly when the poll
      ended and the code field is still there, and accepted (TASK_DONE)
      exactly when the poll ended and it is gone. */
  lemma MfaStep(domain: string, creds: Credentials, otp: string, page: Page, afterEmail: Page,
                mfaCheck: nat -> Evaluation, mfaTimeout: nat, otcAfterPoll: bool)
    requires !Matches(NoAssertion, domain, page) && !Matches(PreSignIn, domain, page)
    requires !Matches(Password, domain, LaterPage(page, afterEmail)) && Matches(Otc, domain, LaterPage(page, afterEmail))
    ensures var r := RunNext(domain, creds, otp, page, afterEmail, mfaCheck, mfaTimeout, otcAfterPoll);
            var q := LaterPage(page, afterEmail);
            var poll := MfaPoll(mfaCheck, mfaTimeout);
            && r.actions == EmailActions(creds, page) + MfaActions(otp, q.rememberMfaEnabled)
            && (Check(REMEMBER_MFA) in r.actions <==> q.rememberMfaEnabled)
            && (r.outcome == Signalled(MFA_FAILED, None) <==> poll.status == Succeeded && otcAfterPoll)
            && (r.outcome == Signalled(TASK_DONE, None) <==> poll.status == Succeeded && !otcAfterPoll)
            && (poll.status == TimedOut ==> r.outcome == Threw(PollTimeout(MFA_CHECK_ID)))
  {
    var q := LaterPage(page, afterEmail);
    var r := RunNext(domain, creds, otp, page, afterEmail, mfaCheck, mfaTimeout, otcAfterPoll);
    assert r.actions == EmailActions(creds, page) + MfaActions(otp, q.rememberMfaEnabled);
    if !q.rememberMfaEnabled {
      assert r.actions == EmailActions(creds, page) + [Fill(OTC, otp), Click(SUBMIT)];
    } else {
      assert r.actions[|EmailActions(creds, page)| + 1] == Check(REMEMBER_MFA);
    }
  }

  /** The "remember this device" box is ticked only in the code step, and
      only when it is enabled. */
  lemma RememberMfaOnlyWhenEnabled(domain: string, creds: Credentials, otp: string, page: Page, afterEmail: Page,
                                   mfaCheck: nat -> Evaluation, mfaTimeout: nat, otcAfterPoll: bool)
    ensures var r := RunNext(domain, creds, otp, page, afterEmail, mfaCheck, mfaTimeout, otcAfterPoll);
            var q := LaterPage(page, afterEmail);
            Check(REMEMBER_MFA) in r.actions ==> Matches(Otc, domain, q) && q.rememberMfaEnabled
  {
    var r := RunNext(domain, creds, otp, page, afterEmail, mfaCheck, mfaTimeout, otcAfterPoll);
    var q := LaterPage(page, afterEmail);
    assert REMEMBER_MFA != DONT_SHOW_AGAIN && REMEMBER_MFA != POSTFIX_SID;
    if Check(REMEMBER_MFA) in r.actions && !Matches(NoAssertion, domain, page) && !Matches(PreSignIn, domain, page) {
      var rest := FromPassword(domain, creds, otp, q, mfaCheck, mfaTimeout, otcAfterPoll);
      assert Check(REMEMBER_MFA) in rest.actions;
    }
  }

  /** An email step whose submit brings up the password field is followed by
      the password step in the same call, which reports TASK_DONE once. */
  lemma EmailThenPassword(domain: string, creds: Credentials, otp: string, page: Page, afterEmail: Page,
                          mfaCheck: nat -> Evaluation, mfaTimeout: nat, otcAfterPoll: bool)
    requires !Matches(NoAssertion, domain, page) && !Matches(PreSignIn, domain, page)
    requires Matches(Email, domain, page) && Matches(Password, domain, afterEmail)
    ensures RunNext(domain, creds, otp, page, afterEmail, mfaCheck, mfaTimeout, otcAfterPoll)
         == Step(Signalled(TASK_DONE, None),
                 [Fill(LOGINFMT, creds.email), Click(SUBMIT), Fill(PASSWD, creds.password), Click(SUBMIT)])
  {
  }

  /** A gateway page holding a DSID cookie with value abc123 yields exactly
      the payload `DSID=abc123;`. */
  lemma CookieExample()
    ensures var page := Page("https://vpn.example.com/dana/home/index.cgi", "", false, false, false, false, false,
                             [Cookie("DSPREAUTH", "x"), Cookie("DSID", "abc123"), Cookie("DSID", "later")]);
            RunNext("vpn.example.com", Credentials("user@example.com", "secret"), "123456", page, page,
                    (j: nat) => Returned(true), MFA_POLL_TIMEOUT_AS_WRITTEN_MS, false)
              == Step(Signalled(ALL_DONE_COOKIE_FOUND, Some("DSID=abc123;")), [])
  {
    var url := "https://vpn.example.com/dana/home/index.cgi";
    assert url == "https://" + "vpn.example.com" + "/dana/home/index.cgi";
    assert url[8..23] == "vpn.example.com";
    assert OccursAt(url, "vpn.example.com", 8);
    var cookies := [Cookie("DSPREAUTH", "x"), Cookie("DSID", "abc123"), Cookie("DSID", "later")];
    assert cookies[0].name != "DSID";
    assert FindCookie(cookies, "DSID") == Some(1);
    assert CookieHeader(cookies[1]) == "DSID=abc123;";
  }
}
