/**
 Changing an admin's own password against a sign-in provider whose calls may fail
 before or after they took effect, and what the admin is told about it.
 */
module PasswordChange {
  import opened Wrappers
  import opened PhraseWords
  import opened PasswordRules

  type Id = string
  type Token = string

  // ---------------------------------------------------------------- outcomes

  datatype Reason =
    | Invalid | WrongCurrentPassword | SessionExpired | NoPassword | AccountDisabled | RateLimited
    | ReauthRequired | IdentityMismatch | Network | UnknownOutcome | Provider

  datatype Outcome = Changed(sessionKept: bool) | Failed(reason: Reason, fields: FieldErrors)

  function Failure(reason: Reason): Outcome { Failed(reason, NO_ERRORS) }

  datatype AuthError = AuthError(
    name: Option<string>, message: Option<string>, status: Option<int>, code: Option<string>,
    reasons: Option<seq<string>>)

  const THROWN := AuthError(Some("AuthRetryableFetchError"), None, Some(0), None, None)

  predicate IsTransport(e: AuthError) { e.name == Some("AuthRetryableFetchError") }

  /** The errors after which the provider may have carried the update out. */
  predicate Ambiguous(e: AuthError) {
    IsTransport(e) || e.name == Some("AuthUnknownError") || (e.status.Some? && e.status.value >= 500)
  }

  function CodeOf(e: AuthError): string {
    if e.name == Some("AuthSessionMissingError") then "session_not_found"
    else if e.code.Some? then e.code.value else ""
  }

  function AsciiLower(s: string): string
    ensures |AsciiLower(s)| == |s|
  {
    seq(|s|, i requires 0 <= i < |s| => if 'A' <= s[i] <= 'Z' then s[i] + ('a' - 'A') else s[i])
  }

  /** Why signing in with the claimed current password failed. */
  function VerifyFailure(error: Option<AuthError>): (outcome: Outcome)
    ensures outcome.Failed? && outcome.reason != UnknownOutcome
  {
    if error.None? then Failure(Provider)
    else
      var e := error.value;
      if IsTransport(e) then Failure(Network)
      else if || CodeOf(e) == "invalid_credentials"
              || (e.message.Some? && Includes(AsciiLower(e.message.value), "invalid login credentials")) then
        Failed(WrongCurrentPassword, NO_ERRORS.(currentPassword := Some(NotCurrent)))
      else if CodeOf(e) == "user_banned" then Failure(AccountDisabled)
      else if CodeOf(e) == "over_request_rate_limit" || e.status == Some(429) then Failure(RateLimited)
      else Failure(Provider)
  }

  function WeakReasons(reasons: Option<seq<string>>): FieldError {
    var r := if reasons.Some? then reasons.value else [];
    Weak("pwned" in r, "characters" in r, "length" in r)
  }

  /** Why the update itself failed. */
  function UpdateFailure(e: AuthError): Outcome {
    if Ambiguous(e) then Failure(UnknownOutcome) else Refusal(e)
  }

  /** A definite refusal of the update. */
  function Refusal(e: AuthError): (outcome: Outcome)
    ensures outcome.Failed? && outcome.reason != UnknownOutcome
  {
    var code := CodeOf(e);
    if code == "same_password" then Failed(Invalid, NO_ERRORS.(newPassword := Some(SameAsCurrent)))
    else if code == "weak_password" then Failed(Invalid, NO_ERRORS.(newPassword := Some(WeakReasons(e.reasons))))
    else if code == "validation_failed" then Failed(Invalid, NO_ERRORS.(newPassword := Some(CannotBeUsed)))
    else if code in ["current_password_mismatch", "current_password_required"] then
      Failed(WrongCurrentPassword, NO_ERRORS.(currentPassword := Some(NotCurrent)))
    else if code in ["reauthentication_needed", "reauthentication_not_valid", "insufficient_aal"] then
      Failure(ReauthRequired)
    else if code in ["session_not_found", "session_expired", "bad_jwt", "no_authorization"] then Failure(SessionExpired)
    else if code == "user_banned" then Failure(AccountDisabled)
    else if code == "over_request_rate_limit" then Failure(RateLimited)
    else if e.status == Some(401) then Failure(SessionExpired)
    else if e.status == Some(429) then Failure(RateLimited)
    else Failure(Provider)
  }

  // ---------------------------------------------------------------- the provider's side

  /** Each account's password, the account of every live session, and the session the browser holds. */
  datatype World = World(passwords: map<Id, Password>, owner: map<Token, Id>, browser: Option<Token>)

  datatype Session = Session(token: Token, account: Id)

  function SignedIn(w: World, created: Option<Session>): World {
    if created.Some? then w.(owner := w.owner[created.value.token := created.value.account]) else w
  }

  /** A password update sets the password of the session's account and signs out its other sessions. */
  function Updated(w: World, token: Token, newPassword: Password): World {
    if token !in w.owner then w
    else
      var id := w.owner[token];
      World(w.passwords[id := newPassword],
            map t | t in w.owner && (w.owner[t] != id || t == token) :: w.owner[t],
            w.browser)
  }

  function SignedOut(w: World, token: Token): World {
    w.(owner := w.owner - {token})
  }

  ghost predicate BrowserLive(w: World) {
    w.browser.Some? && w.browser.value in w.owner
  }

  function SessionsOf(w: World, id: Id): set<Token> {
    set t | t in w.owner && w.owner[t] == id
  }

  datatype Reply<T> = Threw | Replied(data: T, error: Option<AuthError>)

  datatype User = User(id: Id, email: Option<string>, identities: Option<seq<string>>)

  datatype SignInData = SignInData(user: Option<User>, session: Option<Token>)

  /** What the provider answers to each call and whether each call took effect: `created` is the
      session a sign-in attempt opened, if any. */
  datatype Run = Run(
    whoAmI: Reply<Option<User>>,
    signIn: Reply<SignInData>, created: Option<Session>,
    update: Reply<Option<User>>, landed: bool,
    signOutLanded: bool,
    setSession: Reply<Option<User>>, adopted: bool)

  datatype ChangeInput = ChangeInput(current: Password, newPassword: Password, confirm: Password)

  /** The user of a session check that succeeded. */
  function SessionUser(reply: Reply<Option<User>>): Option<User> {
    if reply.Threw? || reply.error.Some? then None else reply.data
  }

  function UpdateError(reply: Reply<Option<User>>): Option<AuthError> {
    if reply.Threw? then Some(THROWN) else reply.error
  }

  predicate Ok<T>(reply: Reply<T>) { reply.Replied? && reply.error.None? }

  predicate SignInOk(reply: Reply<SignInData>) {
    Ok(reply) && reply.data.session.Some? && reply.data.user.Some?
  }

  /** The session check answers for the browser's session. */
  ghost predicate HonestCheck(run: Run, w: World) {
    && (forall t :: t in w.owner ==> w.owner[t] in w.passwords)
    && (SessionUser(run.whoAmI).Some? ==>
          BrowserLive(w) && w.owner[w.browser.value] == SessionUser(run.whoAmI).value.id)
  }

  /** A sign-in opens a new session, and only for an account whose password was given; a session
      reported adopted was adopted. */
  ghost predicate Honest(input: ChangeInput, run: Run, w: World) {
    && HonestCheck(run, w)
    && (run.created.Some? ==>
          && run.created.value.token !in w.owner && run.created.value.account in w.passwords
          && w.passwords[run.created.value.account] == input.current
          && (w.browser.Some? ==> run.created.value.token != w.browser.value))
    && (SignInOk(run.signIn) ==>
          run.created == Some(Session(run.signIn.data.session.value, run.signIn.data.user.value.id)))
    && (Ok(run.setSession) ==> run.adopted)
  }

  /** What an error says of the server: it may have been cut off after the update was made. */
  ghost predicate MayHaveLanded(e: AuthError) {
    || e.name in {Some("AuthRetryableFetchError"), Some("AuthUnknownError")}
    || (e.status.Some? && e.status.value >= 500)
  }

  /** An accepted update landed; a refused one did only if its error leaves that open. A call that
      throws leaves it open. */
  ghost predicate DefiniteAnswers(run: Run) {
    match run.update
    case Threw => true
    case Replied(_, None) => run.landed
    case Replied(_, Some(e)) => run.landed ==> MayHaveLanded(e)
  }

  // ---------------------------------------------------------------- the change, as a function

  predicate HasPasswordSignIn(user: User) {
    && user.email.Some? && user.email.value != ""
    && (user.identities.None? || user.identities.value == [] || "email" in user.identities.value)
  }

  function Adopting(run: Run, token: Token, w: World): World {
    if run.adopted then w.(browser := Some(token)) else w
  }

  function Retiring(run: Run, token: Token, w: World): World {
    if run.signOutLanded then SignedOut(w, token) else w
  }

  function AfterUpdate(run: Run, token: Token, w: World): (Outcome, World) {
    var error := UpdateError(run.update);
    if error.None? then (Changed(Ok(run.setSession)), Adopting(run, token, w))
    else
      var outcome := UpdateFailure(error.value);
      if outcome.reason == UnknownOutcome then (outcome, Adopting(run, token, w))
      else (outcome, Retiring(run, token, w))
  }

  function AfterSignIn(input: ChangeInput, run: Run, user: User, w: World): (Outcome, World) {
    if run.signIn.Threw? then (Failure(Network), w)
    else if !SignInOk(run.signIn) then (VerifyFailure(run.signIn.error), w)
    else
      var token := run.signIn.data.session.value;
      if run.signIn.data.user.value.id != user.id then (Failure(IdentityMismatch), Retiring(run, token, w))
      else AfterUpdate(run, token, if run.landed then Updated(w, token, input.newPassword) else w)
  }

  function Change(input: ChangeInput, run: Run, w: World): (Outcome, World) {
    var errors := ChangeErrors(input.current, input.newPassword, input.confirm);
    var user := SessionUser(run.whoAmI);
    if errors.Any() then (Failed(Invalid, errors), w)
    else if user.None? then (Failure(SessionExpired), w)
    else if !HasPasswordSignIn(user.value) then (Failure(NoPassword), w)
    else AfterSignIn(input, run, user.value, SignedIn(w, run.created))
  }

  /** The sign-in call is made, and the update call is made. */
  predicate AsksToSignIn(input: ChangeInput, run: Run) {
    && !ChangeErrors(input.current, input.newPassword, input.confirm).Any()
    && SessionUser(run.whoAmI).Some? && HasPasswordSignIn(SessionUser(run.whoAmI).value)
  }

  predicate AsksToUpdate(input: ChangeInput, run: Run) {
    && AsksToSignIn(input, run) && SignInOk(run.signIn)
    && run.signIn.data.user.value.id == SessionUser(run.whoAmI).value.id
  }

  // ---------------------------------------------------------------- which answer means what

  /** The provider's error code, with the missing-session error counted as its code. */
  ghost predicate Says(e: AuthError, codes: set<string>) {
    if e.name == Some("AuthSessionMissingError") then "session_not_found" in codes
    else e.code.Some? && e.code.value in codes
  }

  /** The text contains the phrase, a capital counting as its small letter. */
  ghost predicate Contains(text: string, phrase: string) {
    exists k :: 0 <= k <= |text| - |phrase| && SpelledAt(text, phrase, k)
  }

  ghost predicate SpelledAt(text: string, phrase: string, k: nat) {
    && k + |phrase| <= |text|
    && forall i :: 0 <= i < |phrase| ==> SameLetter(text[k + i], phrase[i])
  }

  ghost predicate SameLetter(c: char, small: char) {
    c == small || ('a' <= small <= 'z' && 'A' <= c <= 'Z' && c as int - 'A' as int == small as int - 'a' as int)
  }

  lemma ContainsIff(text: string, phrase: string)
    requires forall i :: 0 <= i < |phrase| ==> !('A' <= phrase[i] <= 'Z')
    ensures Includes(AsciiLower(text), phrase) <==> Contains(text, phrase)
  {
    var lower := AsciiLower(text);
    if Includes(lower, phrase) {
      var k :| 0 <= k <= |lower| && MatchesAt(lower, phrase, k);
      assert forall i :: 0 <= i < |phrase| ==> lower[k..k + |phrase|][i] == lower[k + i] == phrase[i];
      assert SpelledAt(text, phrase, k);
    }
    if Contains(text, phrase) {
      var k :| 0 <= k <= |text| - |phrase| && SpelledAt(text, phrase, k);
      assert forall i :: 0 <= i < |phrase| ==> SameLetter(text[k + i], phrase[i]) && lower[k + i] == phrase[i];
      assert lower[k..k + |phrase|] == phrase;
      assert MatchesAt(lower, phrase, k);
    }
  }

  /** The refused sign-in, reason by reason. */
  lemma VerifyReasons(e: AuthError)
    ensures var (dropped, wrong, limited) :=
              (e.name == Some("AuthRetryableFetchError"),
               Says(e, {"invalid_credentials"})
               || (e.message.Some? && Contains(e.message.value, "invalid login credentials")),
               Says(e, {"over_request_rate_limit"}) || e.status == Some(429));
            var outcome := VerifyFailure(Some(e));
            && (outcome == Failed(Network, FieldErrors(None, None, None)) <==> dropped)
            && (outcome == Failed(WrongCurrentPassword, FieldErrors(Some(NotCurrent), None, None)) <==>
                  !dropped && wrong)
            && (outcome == Failed(AccountDisabled, FieldErrors(None, None, None)) <==>
                  !dropped && !wrong && Says(e, {"user_banned"}))
            && (outcome == Failed(RateLimited, FieldErrors(None, None, None)) <==>
                  !dropped && !wrong && !Says(e, {"user_banned"}) && limited)
            && (outcome == Failed(Provider, FieldErrors(None, None, None)) <==>
                  !dropped && !wrong && !Says(e, {"user_banned"}) && !limited)
  {
    if e.message.Some? {
      ContainsIff(e.message.value, "invalid login credentials");
    }
  }

  /** The refused update, reason by reason: unknown exactly when it may have landed, and otherwise
      by its code, with two statuses for errors whose code says nothing. */
  lemma UpdateReasons(e: AuthError)
    ensures var (unknown, field, current, reauth, session, banned, limited) :=
              (MayHaveLanded(e),
               Says(e, {"same_password", "weak_password", "validation_failed"}),
               Says(e, {"current_password_mismatch", "current_password_required"}),
               Says(e, {"reauthentication_needed", "reauthentication_not_valid", "insufficient_aal"}),
               Says(e, {"session_not_found", "session_expired", "bad_jwt", "no_authorization"}),
               Says(e, {"user_banned"}), Says(e, {"over_request_rate_limit"}));
            var coded := field || current || reauth || session || banned || limited;
            var outcome := UpdateFailure(e);
            && outcome.Failed?
            && (outcome.reason == UnknownOutcome <==> unknown)
            && (outcome.reason == Invalid <==> !unknown && field)
            && (outcome.reason == WrongCurrentPassword <==> !unknown && current)
            && (outcome.reason == ReauthRequired <==> !unknown && reauth)
            && (outcome.reason == SessionExpired <==> !unknown && (session || (!coded && e.status == Some(401))))
            && (outcome.reason == AccountDisabled <==> !unknown && banned)
            && (outcome.reason == RateLimited <==> !unknown && (limited || (!coded && e.status == Some(429))))
            && (outcome.reason == Provider <==> !unknown && !coded && e.status !in {Some(401), Some(429)})
  {
  }

  /** The refused update, field by field: at most one field is blamed, and the new password is told
      why. */
  lemma UpdateBlames(e: AuthError)
    requires !MayHaveLanded(e)
    ensures var outcome := UpdateFailure(e);
            && outcome.Failed?
            && (outcome.fields.currentPassword == Some(NotCurrent) <==>
                  Says(e, {"current_password_mismatch", "current_password_required"}))
            && outcome.fields.currentPassword in {None, Some(NotCurrent)}
            && (outcome.fields.newPassword == Some(SameAsCurrent) <==> Says(e, {"same_password"}))
            && (outcome.fields.newPassword == Some(CannotBeUsed) <==> Says(e, {"validation_failed"}))
            && (forall pwned, characters, length ::
                  outcome.fields.newPassword == Some(Weak(pwned, characters, length)) <==>
                    && Says(e, {"weak_password"})
                    && pwned == (e.reasons.Some? && "pwned" in e.reasons.value)
                    && characters == (e.reasons.Some? && "characters" in e.reasons.value)
                    && length == (e.reasons.Some? && "length" in e.reasons.value))
            && (outcome.fields.newPassword.None? <==> !Says(e, {"same_password", "weak_password", "validation_failed"}))
            && outcome.fields.confirmPassword.None?
  {
  }

  /** The whole change succeeds exactly when the form is right, the session check names a user with
      a password, the sign-in opens a session of that same user and the update is accepted. */
  lemma SucceedsIff(input: ChangeInput, run: Run, w: World)
    ensures var outcome := Change(input, run, w).0;
            && (outcome.Changed? <==>
                  && input.current != [] && input.confirm == input.newPassword != input.current
                  && Problem(input.newPassword).None?
                  && run.whoAmI.Replied? && run.whoAmI.error.None? && run.whoAmI.data.Some?
                  && var user := run.whoAmI.data.value;
                  && user.email.Some? && user.email.value != ""
                  && (user.identities.Some? && user.identities.value != [] ==> "email" in user.identities.value)
                  && run.signIn.Replied? && run.signIn.error.None?
                  && run.signIn.data.session.Some? && run.signIn.data.user.Some?
                  && run.signIn.data.user.value.id == user.id
                  && run.update.Replied? && run.update.error.None?)
            && (outcome.Changed? ==>
                  (outcome.sessionKept <==> run.setSession.Replied? && run.setSession.error.None?))
  {
  }

  /** Each answer by the first call that did not go well. */
  lemma RefusedEarly(input: ChangeInput, run: Run, w: World)
    ensures var (outcome, errors) :=
              (Change(input, run, w).0, ChangeErrors(input.current, input.newPassword, input.confirm));
            if errors.Any() then outcome == Failed(Invalid, errors)
            else if run.whoAmI.Threw? || run.whoAmI.error.Some? || run.whoAmI.data.None? then
              outcome == Failure(SessionExpired)
            else
              var user := run.whoAmI.data.value;
              if || user.email.None? || user.email.value == ""
                 || (user.identities.Some? && user.identities.value != [] && "email" !in user.identities.value) then
                outcome == Failure(NoPassword)
              else if run.signIn.Threw? then outcome == Failure(Network)
              else if run.signIn.error.Some? then outcome == VerifyFailure(run.signIn.error)
              else if run.signIn.data.session.None? || run.signIn.data.user.None? then outcome == Failure(Provider)
              else if run.signIn.data.user.value.id != user.id then outcome == Failure(IdentityMismatch)
              else if run.update.Threw? then outcome == Failure(UnknownOutcome)
              else if run.update.error.Some? then outcome == UpdateFailure(run.update.error.value)
              else outcome.Changed?
  {
  }

  // ---------------------------------------------------------------- what holds of it

  /** The update is asked for only with an accepted new password, by someone who gave the current
      password of the account the browser is signed in to. */
  lemma UpdateIsEarned(input: ChangeInput, run: Run, w: World)
    requires Honest(input, run, w) && AsksToUpdate(input, run)
    ensures Problem(input.newPassword).None? && input.confirm == input.newPassword
    ensures BrowserLive(w)
    ensures var id := w.owner[w.browser.value];
            id in w.passwords && w.passwords[id] == input.current != input.newPassword
  {
  }

  /** The passwords afterwards: changed for the browser's own account when an update was asked for
      and landed, and in no other case or place. */
  lemma PasswordsAfter(input: ChangeInput, run: Run, w: World)
    requires Honest(input, run, w)
    ensures Change(input, run, w).1.passwords ==
            if AsksToUpdate(input, run) && run.landed
            then w.passwords[w.owner[w.browser.value] := input.newPassword] else w.passwords
  {
  }

  /** The signed-in admin is told something untrue about the password. */
  ghost predicate Misleads(w: World, outcome: Outcome, after: World, newPassword: Password) {
    && BrowserLive(w)
    && if outcome.Changed? then after.passwords != w.passwords[w.owner[w.browser.value] := newPassword]
       else outcome.reason != UnknownOutcome && after.passwords != w.passwords
  }

  /** Success means the account's password is the new one; every failure except an unknown outcome
      means no password changed; an unknown outcome means one of the two. */
  lemma ToldTheTruth(input: ChangeInput, run: Run, w: World)
    requires Honest(input, run, w) && DefiniteAnswers(run)
    ensures var (outcome, after) := Change(input, run, w);
            && (outcome.Changed? ==>
                  && BrowserLive(w)
                  && after.passwords == w.passwords[w.owner[w.browser.value] := input.newPassword])
            && (outcome.Failed? && outcome.reason != UnknownOutcome ==> after.passwords == w.passwords)
            && (outcome == Failure(UnknownOutcome) ==>
                  && BrowserLive(w)
                  && after.passwords in {w.passwords, w.passwords[w.owner[w.browser.value] := input.newPassword]})
  {
  }

  /** With a provider that also lies, the admin is misled exactly when it accepted an update that
      did not land, or refused, with an error that rules it out, one that did. */
  lemma MisledIff(input: ChangeInput, run: Run, w: World)
    requires Honest(input, run, w)
    ensures var (outcome, after) := Change(input, run, w);
            Misleads(w, outcome, after, input.newPassword) <==> AsksToUpdate(input, run) && !DefiniteAnswers(run)
  {
    PasswordsAfter(input, run, w);
    if AsksToUpdate(input, run) {
      UpdateIsEarned(input, run, w);
      var id := w.owner[w.browser.value];
      assert w.passwords[id := input.newPassword][id] != w.passwords[id];
    }
  }

  /** After a success the fresh session is the account's only one, and nobody else lost theirs;
      `sessionKept` means the browser holds it. */
  lemma OthersAreSignedOut(input: ChangeInput, run: Run, w: World)
    requires Honest(input, run, w) && DefiniteAnswers(run) && Change(input, run, w).0.Changed?
    ensures var (outcome, after) := Change(input, run, w);
            var id, token := w.owner[w.browser.value], run.signIn.data.session.value;
            && SessionsOf(after, id) == {token}
            && (forall other :: other != id ==> SessionsOf(after, other) == SessionsOf(w, other))
            && (outcome.sessionKept ==> after.browser == Some(token) && BrowserLive(after))
  {
  }

  /** A browser that was signed in stays so unless the update landed and the fresh session could
      not be adopted. */
  lemma StrandedIff(input: ChangeInput, run: Run, w: World)
    requires Honest(input, run, w) && DefiniteAnswers(run) && BrowserLive(w)
    ensures !BrowserLive(Change(input, run, w).1) <==> AsksToUpdate(input, run) && run.landed && !run.adopted
  {
  }

  /** A failure that is not an unknown outcome leaves the browser's session alone, and every other
      session too, except that the session opened to prove the current password outlives it unless
      it was signed out. */
  lemma FailureLeavesSessions(input: ChangeInput, run: Run, w: World)
    requires Honest(input, run, w) && DefiniteAnswers(run)
    requires Change(input, run, w).0.Failed? && Change(input, run, w).0.reason != UnknownOutcome
    ensures var after := Change(input, run, w).1;
            && after.browser == w.browser
            && (after.owner == w.owner <==>
                  run.created.None? || !AsksToSignIn(input, run) || (SignInOk(run.signIn) && run.signOutLanded))
            && (after.owner != w.owner ==> after.owner == SignedIn(w, run.created).owner)
  {
    var after := Change(input, run, w).1;
    if run.created.Some? {
      assert w.owner[run.created.value.token := run.created.value.account] - {run.created.value.token} == w.owner;
    }
  }

  // ---------------------------------------------------------------- the reset link

  datatype ResetInput = ResetInput(newPassword: Password, confirm: Password)

  function Reset(input: ResetInput, run: Run, w: World): (Outcome, World) {
    var errors := NewAndConfirmErrors(input.newPassword, input.confirm, None);
    if errors.Any() then (Failed(Invalid, errors), w)
    else if SessionUser(run.whoAmI).None? then (Failure(SessionExpired), w)
    else
      var after := if run.landed && w.browser.Some? then Updated(w, w.browser.value, input.newPassword) else w;
      var error := UpdateError(run.update);
      if error.Some? then (UpdateFailure(error.value), after) else (Changed(true), after)
  }

  /** The same for a reset link. */
  lemma ResetRefused(input: ResetInput, run: Run, w: World)
    ensures var (outcome, errors) :=
              (Reset(input, run, w).0, NewAndConfirmErrors(input.newPassword, input.confirm, None));
            if errors.Any() then outcome == Failed(Invalid, errors)
            else if run.whoAmI.Threw? || run.whoAmI.error.Some? || run.whoAmI.data.None? then
              outcome == Failed(SessionExpired, FieldErrors(None, None, None))
            else if run.update.Threw? then outcome == Failed(UnknownOutcome, FieldErrors(None, None, None))
            else if run.update.error.Some? then outcome == UpdateFailure(run.update.error.value)
            else outcome == Changed(true)
  {
  }

  predicate AsksToReset(input: ResetInput, run: Run) {
    !NewAndConfirmErrors(input.newPassword, input.confirm, None).Any() && SessionUser(run.whoAmI).Some?
  }

  /** The same promise for a reset link, whose session stays signed in whatever happens. */
  lemma ResetToldTheTruth(input: ResetInput, run: Run, w: World)
    requires HonestCheck(run, w) && DefiniteAnswers(run)
    ensures var (outcome, after) := Reset(input, run, w);
            && after.browser == w.browser && (BrowserLive(w) ==> BrowserLive(after))
            && (outcome.Changed? ==> BrowserLive(w) && var id := w.owner[w.browser.value];
                  && Problem(input.newPassword).None?
                  && after.passwords == w.passwords[id := input.newPassword]
                  && SessionsOf(after, id) == {w.browser.value})
            && (outcome.Failed? && outcome.reason != UnknownOutcome ==> after == w)
  {
  }

  /** A lying provider misleads the holder of a reset link exactly as above, unless the new password
      is the old one: a reset does not compare them. */
  lemma ResetMisledIff(input: ResetInput, run: Run, w: World)
    requires HonestCheck(run, w)
    ensures var (outcome, after) := Reset(input, run, w);
            Misleads(w, outcome, after, input.newPassword) <==>
              && AsksToReset(input, run) && !DefiniteAnswers(run)
              && w.passwords[w.owner[w.browser.value]] != input.newPassword
  {
  }

  // ---------------------------------------------------------------- attempt after attempt

  datatype Attempt = ChangeAttempt(change: ChangeInput, run: Run) | ResetAttempt(reset: ResetInput, run: Run)

  function Try(a: Attempt, w: World): (Outcome, World) {
    match a
    case ChangeAttempt(input, run) => Change(input, run, w)
    case ResetAttempt(input, run) => Reset(input, run, w)
  }

  function NewOf(a: Attempt): Password {
    match a
    case ChangeAttempt(input, _) => input.newPassword
    case ResetAttempt(input, _) => input.newPassword
  }

  ghost predicate HonestAttempt(a: Attempt, w: World) {
    && DefiniteAnswers(a.run)
    && match a
       case ChangeAttempt(input, run) => Honest(input, run, w)
       case ResetAttempt(_, run) => HonestCheck(run, w)
  }

  ghost predicate HonestAttempts(attempts: seq<Attempt>, w: World)
    decreases |attempts|
  {
    attempts != [] ==> HonestAttempt(attempts[0], w) && HonestAttempts(attempts[1..], Try(attempts[0], w).1)
  }

  function TryAll(attempts: seq<Attempt>, w: World): World
    decreases |attempts|
  {
    if attempts == [] then w else TryAll(attempts[1..], Try(attempts[0], w).1)
  }

  /** What a person who goes only by what they are told may try at the next sign-in: a success
      leaves the new password, an unknown outcome adds it, any other failure says nothing changed. */
  function WorthTrying(attempts: seq<Attempt>, w: World, known: set<Password>): set<Password>
    decreases |attempts|
  {
    if attempts == [] then known
    else
      var (outcome, after) := Try(attempts[0], w);
      var next :=
        if outcome.Changed? then {NewOf(attempts[0])}
        else if outcome.reason == UnknownOutcome then known + {NewOf(attempts[0])}
        else known;
      WorthTrying(attempts[1..], after, next)
  }

  /** The browser's session, while it lives, is the given account's. */
  ghost predicate BelongsTo(w: World, id: Id) {
    id in w.passwords && (BrowserLive(w) ==> w.owner[w.browser.value] == id)
  }

  lemma AttemptKeepsOwner(a: Attempt, w: World, id: Id)
    requires HonestAttempt(a, w) && BelongsTo(w, id)
    ensures BelongsTo(Try(a, w).1, id)
  {
  }

  /** One attempt: the password afterwards is one of those worth trying, and no other account's
      password is touched. */
  lemma AttemptIsTruthful(a: Attempt, w: World, id: Id, other: Id)
    requires HonestAttempt(a, w) && BelongsTo(w, id)
    ensures var (outcome, after) := Try(a, w);
            && id in after.passwords
            && (outcome.Changed? ==> after.passwords[id] == NewOf(a))
            && (outcome.Failed? ==> after.passwords[id] == w.passwords[id]
                                    || (outcome.reason == UnknownOutcome && after.passwords[id] == NewOf(a)))
            && (other != id && other in w.passwords ==>
                 other in after.passwords && after.passwords[other] == w.passwords[other])
  {
    match a
    case ChangeAttempt(input, run) => ToldTheTruth(input, run, w); PasswordsAfter(input, run, w);
    case ResetAttempt(input, run) => ResetToldTheTruth(input, run, w);
  }

  /** Over any sequence of changes and resets, failing however the provider's calls may fail: the
      account's password is always among those the person was left to try, and no other account's
      password ever changes. */
  lemma {:induction false} NeverLockedOut(attempts: seq<Attempt>, w: World, id: Id, known: set<Password>, other: Id)
    requires HonestAttempts(attempts, w) && BelongsTo(w, id) && w.passwords[id] in known
    ensures var end := TryAll(attempts, w);
            && BelongsTo(end, id) && end.passwords[id] in WorthTrying(attempts, w, known)
            && (other != id && other in w.passwords ==>
                 other in end.passwords && end.passwords[other] == w.passwords[other])
    decreases |attempts|
  {
    if attempts != [] {
      var (outcome, after) := Try(attempts[0], w);
      AttemptKeepsOwner(attempts[0], w, id);
      AttemptIsTruthful(attempts[0], w, id, other);
      var next :=
        if outcome.Changed? then {NewOf(attempts[0])}
        else if outcome.reason == UnknownOutcome then known + {NewOf(attempts[0])}
        else known;
      NeverLockedOut(attempts[1..], after, id, next, other);
    }
  }

  // ---------------------------------------------------------------- the calls, in order

  class Dashboard {
    var passwords: map<Id, Password>
    var owner: map<Token, Id>
    var browser: Option<Token>

    function State(): World
      reads this
    {
      World(passwords, owner, browser)
    }

    method SignInWithPassword(run: Run) returns (reply: Reply<SignInData>)
      modifies this`owner
      ensures reply == run.signIn && State() == SignedIn(old(State()), run.created)
    {
      if run.created.Some? {
        owner := owner[run.created.value.token := run.created.value.account];
      }
      reply := run.signIn;
    }

    method UpdateUser(run: Run, token: Token, newPassword: Password) returns (reply: Reply<Option<User>>)
      modifies this`passwords, this`owner
      ensures reply == run.update
      ensures State() == if run.landed then Updated(old(State()), token, newPassword) else old(State())
    {
      if run.landed && token in owner {
        var id := owner[token];
        passwords := passwords[id := newPassword];
        owner := map t | t in owner && (owner[t] != id || t == token) :: owner[t];
      }
      reply := run.update;
    }

    method SignOutLocal(run: Run, token: Token)
      modifies this`owner
      ensures State() == Retiring(run, token, old(State()))
    {
      if run.signOutLanded {
        owner := owner - {token};
      }
    }

    method SetSession(run: Run, token: Token) returns (reply: Reply<Option<User>>)
      modifies this`browser
      ensures reply == run.setSession && State() == Adopting(run, token, old(State()))
    {
      if run.adopted {
        browser := Some(token);
      }
      reply := run.setSession;
    }

    /** Our rules, then who is signed in, then the current password, then the update, then the
        browser adopts the fresh session. */
    method ChangeOwnPassword(input: ChangeInput, run: Run) returns (outcome: Outcome)
      modifies this
      ensures (outcome, State()) == Change(input, run, old(State()))
    {
      var invalid := ValidateChange(input.current, input.newPassword, input.confirm);
      if invalid.Any() {
        return Failed(Invalid, invalid);
      }
      var user := SessionUser(run.whoAmI);
      if user.None? {
        return Failure(SessionExpired);
      }
      if !HasPasswordSignIn(user.value) {
        return Failure(NoPassword);
      }
      var signIn := SignInWithPassword(run);
      if signIn.Threw? {
        return Failure(Network);
      }
      if signIn.error.Some? || signIn.data.session.None? || signIn.data.user.None? {
        return VerifyFailure(signIn.error);
      }
      var token := signIn.data.session.value;
      if signIn.data.user.value.id != user.value.id {
        SignOutLocal(run, token);
        return Failure(IdentityMismatch);
      }
      var update := UpdateUser(run, token, input.newPassword);
      var updateError := if update.Threw? then Some(THROWN) else update.error;
      if updateError.Some? {
        outcome := UpdateFailure(updateError.value);
        if outcome.reason == UnknownOutcome {
          var _ := SetSession(run, token);
        } else {
          SignOutLocal(run, token);
        }
        return;
      }
      var adopted := SetSession(run, token);
      outcome := Changed(adopted.Replied? && adopted.error.None?);
    }

    /** The browser's own session is the recovery session of the link. */
    method ResetOwnPassword(input: ResetInput, run: Run) returns (outcome: Outcome)
      modifies this
      ensures (outcome, State()) == Reset(input, run, old(State()))
    {
      var invalid := ValidateNewAndConfirm(input.newPassword, input.confirm, None);
      if invalid.Any() {
        return Failed(Invalid, invalid);
      }
      if SessionUser(run.whoAmI).None? {
        return Failure(SessionExpired);
      }
      var update := run.update;
      if browser.Some? {
        update := UpdateUser(run, browser.value, input.newPassword);
      }
      var updateError := if update.Threw? then Some(THROWN) else update.error;
      if updateError.Some? {
        return UpdateFailure(updateError.value);
      }
      outcome := Changed(true);
    }
  }
}
