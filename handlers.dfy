/**
 * The decisions the bot's message and callback handlers take, with each
 * reply modelled as a value of `Reply` instead of a message sent over the
 * transport.
 */
module Handlers {
  import opened Optional
  import opened PyText
  import opened Decimal
  import opened Store

  /** An inline keyboard button: its text and its callback payload. */
  datatype Button = Button(text: string, payload: string)

  datatype Poll = Poll(question: string, options: seq<string>)

  datatype Reply =
    | Skipped                            // a text starting with "/" is left alone
    | AdminGranted                       // "Admin access granted"
    | AdminRejected                      // "Invalid password"
    | CredentialsFormatError             // "Invalid format" for `email password`
    | Registered                         // "Registration successful", pay, then /request_permission
    | Crashed(error: DbError)             // the exception escapes the handler; no reply is sent
    | ApprovalRequested(userId: int)     // "request sent" to the user and a notice to the administrator
    | AlreadyApproved                    // "You are already approved"
    | LoginApproved                      // "Login successful"
    | LoginPending                       // "pending admin approval"
    | LoginInvalid                       // "Invalid login credentials"
    | PollCreated(poll: Poll)            // a poll sent to the chat
    | PollFormatError                    // "Invalid format" for `Question | Option1, Option2`
    | PostCreated(content: string)       // "Post Created: <text>"
    | NoPendingUsers                     // "No users are pending approval."
    | PendingList(buttons: seq<Button>)  // "Pending users for approval:" with one button each
    | UserApproved(userIdText: string)   // "User <id> approved." and the message removed

  /** The guard of every free-text handler: commands are skipped. */
  predicate IsCommand(text: string)
    ensures IsCommand(text) <==> text != [] && text[0] == '/'
  {
    assert text != [] ==> text[..1] == [text[0]];
    StartsWith(text, "/")
  }

  // ---------------------------------------------------------------------
  // admin login

  /** `validate_admin`: the whole text is the password attempt. */
  function ValidateAdmin(admin: seq<string>, text: string): (reply: Reply)
    ensures reply == Skipped <==> IsCommand(text)
    ensures reply == AdminGranted <==> !IsCommand(text) && text in admin
    ensures reply in {Skipped, AdminGranted, AdminRejected}
  {
    if IsCommand(text) then Skipped
    else if AdminPasswordMatches(admin, text) then AdminGranted
    else AdminRejected
  }

  // ---------------------------------------------------------------------
  // `email password`

  /** `email, password = text.split()`: exactly two words, or a ValueError. */
  function ParseCredentials(text: string): (r: Option<(string, string)>)
    ensures r.Some? <==> |Words(text)| == 2
    ensures r.Some? ==> Words(text) == [r.value.0, r.value.1]
  {
    var ws := Words(text);
    if |ws| == 2 then Some((ws[0], ws[1])) else None
  }

  /** Two words separated by a space are read back as the pair. */
  lemma CredentialsRoundTrip(email: string, password: string)
    requires email != [] && NoSpace(email) && password != [] && NoSpace(password)
    ensures ParseCredentials(email + " " + password) == Some((email, password))
  {
    assert JoinSpaced([email, password]) == email + " " + password;
    WordsOfJoinSpaced([email, password]);
  }

  /** A text without whitespace (a single word, or nothing) is a format error. */
  lemma OneWordIsFormatError(text: string)
    requires NoSpace(text)
    ensures ParseCredentials(text) == None
  {
    if text != [] {
      WordsOfFirst(text, "");
      assert text + "" == text;
    }
  }

  // ---------------------------------------------------------------------
  // registration

  /** `process_registration` on the users table: the reply and the rows after it. */
  function Registration(users: map<int, UserRow>, userId: int, text: string, conditions: seq<Condition>)
    : (r: (Reply, map<int, UserRow>))
    requires MaxAttempts <= |conditions|
    ensures r.0 in {Skipped, CredentialsFormatError, Registered} || r.0.Crashed?
    ensures r.0 != Registered ==> r.1 == users
  {
    if IsCommand(text) then (Skipped, users)
    else match ParseCredentials(text)
      case None => (CredentialsFormatError, users)
      case Some((email, password)) =>
        var run := AddUserRun(users, userId, email, password, conditions);
        (if run.outcome.Raised? then Crashed(run.outcome.error) else Registered, run.users)
  }

  /**
   * Registration changes the table only by adding the sender's row, with
   * the two words as email and password and approved = 0, and only when it
   * replies Registered; a command or a format error leaves it alone.
   */
  lemma RegistrationEffect(users: map<int, UserRow>, userId: int, text: string, conditions: seq<Condition>)
    requires MaxAttempts <= |conditions|
    ensures Registration(users, userId, text, conditions).0 == Skipped <==> IsCommand(text)
    ensures Registration(users, userId, text, conditions).0 == CredentialsFormatError <==>
              !IsCommand(text) && |Words(text)| != 2
    ensures Registration(users, userId, text, conditions).1 != users ==>
              && Registration(users, userId, text, conditions).0 == Registered
              && userId !in users && |Words(text)| == 2
              && var after := Registration(users, userId, text, conditions).1;
                 && after == users[userId := UserRow(Words(text)[0], Words(text)[1], false, false)]
                 && !IsApproved(after, userId)
                 && PendingUser(userId, Words(text)[0]) in PendingUsers(after)
  {
    if !IsCommand(text) && ParseCredentials(text).Some? {
      var (email, password) := ParseCredentials(text).value;
      var run := AddUserRun(users, userId, email, password, conditions);
      assert Registration(users, userId, text, conditions).1 == run.users;
      if run.users != users {
        AddedUserIsPending(users, userId, email, password, conditions);
        assert run.outcome == Returned by {
          AddFromDecided(users, userId, email, password, conditions, 0);
        }
      }
    }
  }

  /**
   * When all five attempts find the database locked, `add_user` returns
   * normally, so the sender is told the registration succeeded although no
   * row was written.
   */
  lemma RegisteredWhileLocked(users: map<int, UserRow>, userId: int, text: string, conditions: seq<Condition>)
    requires MaxAttempts <= |conditions|
    requires forall i :: 0 <= i < MaxAttempts ==> IsLocked(conditions[i])
    requires !IsCommand(text) && |Words(text)| == 2
    ensures Registration(users, userId, text, conditions) == (Registered, users)
  {
    var (email, password) := ParseCredentials(text).value;
    assert FirstUnlocked(conditions, 0) == MaxAttempts;
    AddFromDecided(users, userId, email, password, conditions, 0);
  }

  /** A second registration of the same sender crashes with IntegrityError at
      its first unlocked attempt, unless that attempt fails otherwise. */
  lemma DuplicateRegistrationCrashes(users: map<int, UserRow>, userId: int, text: string,
                                     conditions: seq<Condition>)
    requires MaxAttempts <= |conditions|
    requires userId in users
    requires !IsCommand(text) && |Words(text)| == 2
    requires FirstUnlocked(conditions, 0) < MaxAttempts && conditions[FirstUnlocked(conditions, 0)].Free?
    ensures Registration(users, userId, text, conditions) == (Crashed(IntegrityError), users)
  {
    var (email, password) := ParseCredentials(text).value;
    AddFromDecided(users, userId, email, password, conditions, 0);
  }

  /** A sender without a row whose first unlocked attempt finds the database
      free is stored unapproved and told the registration succeeded, whatever
      other rows the table holds. */
  lemma NewSenderRegistered(users: map<int, UserRow>, userId: int, text: string, conditions: seq<Condition>)
    requires MaxAttempts <= |conditions|
    requires userId !in users
    requires !IsCommand(text) && |Words(text)| == 2
    requires FirstUnlocked(conditions, 0) < MaxAttempts && conditions[FirstUnlocked(conditions, 0)].Free?
    ensures Registration(users, userId, text, conditions)
            == (Registered, users[userId := NewRow(Words(text)[0], Words(text)[1])])
  {
    var (email, password) := ParseCredentials(text).value;
    AddFromDecided(users, userId, email, password, conditions, 0);
  }

  /** An OperationalError other than "database is locked" at the first unlocked
      attempt propagates out of `add_user`: the handler crashes with it, sends
      no reply and the table is unchanged. */
  lemma FailedRegistrationCrashes(users: map<int, UserRow>, userId: int, text: string,
                                  conditions: seq<Condition>)
    requires MaxAttempts <= |conditions|
    requires !IsCommand(text) && |Words(text)| == 2
    requires FirstUnlocked(conditions, 0) < MaxAttempts && conditions[FirstUnlocked(conditions, 0)].Failed?
    ensures Registration(users, userId, text, conditions)
            == (Crashed(OperationalError(conditions[FirstUnlocked(conditions, 0)].message)), users)
  {
    var (email, password) := ParseCredentials(text).value;
    AddFromDecided(users, userId, email, password, conditions, 0);
  }

  /** `process_registration` */
  method ProcessRegistration(db: SubscriptionDb, userId: int, text: string, conditions: seq<Condition>)
    returns (reply: Reply)
    requires db.Valid() && db.hasTables
    requires MaxAttempts <= |conditions|
    modifies db
    ensures db.Valid() && db.hasTables && db.admin == old(db.admin)
    ensures (reply, db.users) == Registration(old(db.users), userId, text, conditions)
  {
    if IsCommand(text) {
      return Skipped;
    }
    match ParseCredentials(text)
    case None =>
      reply := CredentialsFormatError;
    case Some((email, password)) =>
      var outcome, attempts := db.AddUser(userId, email, password, conditions);
      reply := if outcome.Raised? then Crashed(outcome.error) else Registered;
  }

  // ---------------------------------------------------------------------
  // permission request

  /** `request_permission`: the administrator is notified exactly when the
      sender is not approved. */
  function RequestPermission(users: map<int, UserRow>, userId: int): (reply: Reply)
    ensures reply == ApprovalRequested(userId) <==> !IsApproved(users, userId)
    ensures reply == AlreadyApproved <==> IsApproved(users, userId)
  {
    if !IsApproved(users, userId) then ApprovalRequested(userId) else AlreadyApproved
  }

  // ---------------------------------------------------------------------
  // user login

  /** `process_login` */
  function ProcessLogin(users: map<int, UserRow>, text: string): (reply: Reply)
    ensures reply == Skipped <==> IsCommand(text)
    ensures reply == CredentialsFormatError <==> !IsCommand(text) && |Words(text)| != 2
    ensures reply == LoginInvalid <==>
              !IsCommand(text) && |Words(text)| == 2
              && forall id :: !HasCredentials(users, id, Words(text)[0], Words(text)[1])
    ensures !IsCommand(text) && |Words(text)| == 2 ==>
              && (reply == LoginApproved <==> LoginMatch(users, Words(text)[0], Words(text)[1]) == Some(true))
              && (reply == LoginPending <==> LoginMatch(users, Words(text)[0], Words(text)[1]) == Some(false))
    ensures reply in {Skipped, CredentialsFormatError, LoginInvalid, LoginPending, LoginApproved}
  {
    if IsCommand(text) then Skipped
    else match ParseCredentials(text)
      case None => CredentialsFormatError
      case Some((email, password)) =>
        match LoginMatch(users, email, password)
        case None => LoginInvalid
        case Some(approved) => if approved then LoginApproved else LoginPending
  }

  /**
   * With exactly one row holding the credentials, login reports that row:
   * Approved when its flag is set, Pending otherwise; when several rows hold
   * them, a Pending or Approved reply still comes from one of them.
   */
  lemma LoginOutcome(users: map<int, UserRow>, email: string, password: string)
    requires email != [] && NoSpace(email) && password != [] && NoSpace(password) && email[0] != '/'
    ensures var reply := ProcessLogin(users, email + " " + password);
      && (reply == LoginApproved ==> exists id :: HasCredentials(users, id, email, password) && users[id].approved)
      && (reply == LoginPending ==> exists id :: HasCredentials(users, id, email, password) && !users[id].approved)
      && (forall id :: HasCredentials(users, id, email, password) ==>
            (forall other :: HasCredentials(users, other, email, password) ==> other == id) ==>
              reply == if users[id].approved then LoginApproved else LoginPending)
  {
    CredentialsRoundTrip(email, password);
    assert !IsCommand(email + " " + password) by {
      assert (email + " " + password)[0] == email[0];
    }
  }

  // ---------------------------------------------------------------------
  // poll and post makers

  /** `[opt.strip() for opt in options]` */
  function StripAll(xs: seq<string>): (ys: seq<string>)
    ensures |ys| == |xs|
    ensures forall i :: 0 <= i < |xs| ==> ys[i] == Strip(xs[i])
  {
    seq(|xs|, i requires 0 <= i < |xs| => Strip(xs[i]))
  }

  /** `question, options = text.split('|')` and the option split on ','. */
  function ParsePoll(text: string): (r: Option<Poll>)
    ensures r.Some? <==> Count(text, '|') == 1
    ensures r.Some? ==> Stripped(r.value.question) && r.value.options != []
  {
    var halves := SplitOn(text, '|');
    if |halves| != 2 then None
    else Some(Poll(Strip(halves[0]), StripAll(SplitOn(halves[1], ','))))
  }

  /**
   * A question and options without the separators, written as
   * `question|option1,option2,...`, parse back to the stripped question and
   * the stripped options, in their order.
   */
  lemma PollRoundTrip(question: string, options: seq<string>)
    requires '|' !in question && options != []
    requires forall k :: 0 <= k < |options| ==> '|' !in options[k] && ',' !in options[k]
    ensures ParsePoll(question + "|" + JoinOn(options, ',')) == Some(Poll(Strip(question), StripAll(options)))
  {
    var rest := JoinOn(options, ',');
    JoinOnAvoids(options, ',', '|');
    PollHalves(question, rest);
    ParsePollOfHalves(question + "|" + rest, question, rest);
    SplitOnJoinOn(options, ',');
  }

  lemma PollHalves(question: string, rest: string)
    requires '|' !in question && '|' !in rest
    ensures SplitOn(question + "|" + rest, '|') == [question, rest]
  {
    assert JoinOn([question, rest], '|') == question + "|" + rest;
    SplitOnJoinOn([question, rest], '|');
  }

  lemma ParsePollOfHalves(text: string, question: string, rest: string)
    requires SplitOn(text, '|') == [question, rest]
    ensures ParsePoll(text) == Some(Poll(Strip(question), StripAll(SplitOn(rest, ','))))
  {
  }

  lemma {:induction false} JoinOnAvoids(parts: seq<string>, sep: char, c: char)
    requires c != sep
    requires forall k :: 0 <= k < |parts| ==> c !in parts[k]
    ensures c !in JoinOn(parts, sep)
  {
    if |parts| > 1 {
      JoinOnAvoids(parts[1..], sep, c);
    }
  }

  /** `process_poll` */
  function ProcessPoll(text: string): (reply: Reply)
    ensures reply == Skipped <==> IsCommand(text)
    ensures reply == PollFormatError <==> !IsCommand(text) && Count(text, '|') != 1
    ensures !IsCommand(text) && Count(text, '|') == 1 ==> reply == PollCreated(ParsePoll(text).value)
  {
    if IsCommand(text) then Skipped
    else match ParsePoll(text)
      case None => PollFormatError
      case Some(poll) => PollCreated(poll)
  }

  /** `process_post`: the text is echoed back as the post. */
  function ProcessPost(text: string): (reply: Reply)
    ensures reply == Skipped <==> IsCommand(text)
    ensures reply != Skipped ==> reply == PostCreated(text)
  {
    if IsCommand(text) then Skipped else PostCreated(text)
  }

  // ---------------------------------------------------------------------
  // approval buttons and their callback

  /** `f"approve_{user_id}"` */
  function ApprovePayload(userId: int): (payload: string)
    ensures StartsWith(payload, "approve_") && '_' !in payload[8..]
  {
    var digits := IntToString(userId);
    assert ("approve_" + digits)[8..] == digits;
    "approve_" + digits
  }

  /** The button `approve_users` shows for one pending user. */
  function ApproveButton(p: PendingUser): (b: Button)
    ensures b.text == "Approve " + p.email && Contains(b.payload, "approve_")
  {
    assert OccursAt(ApprovePayload(p.userId), "approve_", 0);
    Button("Approve " + p.email, ApprovePayload(p.userId))
  }

  /** `query.data.split("_")[1]`; the handler's filter guarantees "approve_"
      is in the payload, so the second piece exists. */
  function CallbackIdText(data: string): (t: string)
    requires Contains(data, "approve_")
    ensures '_' !in t
    ensures exists k :: 0 <= k <= |data| - |t| && OccursAt(data, t, k)
  {
    assert "approve_"[7] == '_';
    ContainsCharOf(data, "approve_", '_');
    var parts := SplitOn(data, '_');
    JoinOnSplitOn(data, '_');
    PieceOccurs(parts, '_');
    parts[1]
  }

  lemma PieceOccurs(parts: seq<string>, sep: char)
    requires |parts| >= 2
    ensures OccursAt(JoinOn(parts, sep), parts[1], |parts[0]| + 1)
  {
    var s := JoinOn(parts, sep);
    var rest := JoinOn(parts[1..], sep);
    assert s == parts[0] + [sep] + rest;
    if |parts| == 2 {
      assert rest == parts[1];
    } else {
      assert rest == parts[1] + [sep] + JoinOn(parts[2..], sep) by {
        assert parts[1..][1..] == parts[2..];
      }
    }
    assert s[|parts[0]| + 1..|parts[0]| + 1 + |parts[1]|] == parts[1];
  }

  /** Every button payload carries its user's id back to the callback. */
  lemma ApprovePayloadRoundTrip(userId: int)
    ensures Contains(ApprovePayload(userId), "approve_")
    ensures CallbackIdText(ApprovePayload(userId)) == IntToString(userId)
    ensures ParseInt(CallbackIdText(ApprovePayload(userId))) == Some(userId)
  {
    var payload := ApprovePayload(userId);
    var digits := IntToString(userId);
    assert OccursAt(payload, "approve_", 0);
    assert '_' !in digits;
    assert JoinOn(["approve", digits], '_') == payload;
    SplitOnJoinOn(["approve", digits], '_');
    ParseIntToString(userId);
  }

  /** `UPDATE users SET approved = 1 WHERE user_id = ?` with the id as text:
      SQLite compares it as an integer, and text that is no integer matches no row. */
  function ApproveByText(users: map<int, UserRow>, idText: string): (r: map<int, UserRow>)
    ensures r.Keys == users.Keys
    ensures ParseInt(idText).None? ==> r == users
  {
    match ParseInt(idText)
    case Some(userId) => Approve(users, userId)
    case None => users
  }

  /** The callback of a pending user's button approves exactly that user,
      who then leaves the pending list. */
  lemma ApproveButtonApproves(users: map<int, UserRow>, p: PendingUser)
    requires IsPendingRow(users, p)
    ensures Contains(ApproveButton(p).payload, "approve_")
    ensures var after := ApproveByText(users, CallbackIdText(ApproveButton(p).payload));
      && after == Approve(users, p.userId)
      && IsApproved(after, p.userId)
      && p !in PendingUsers(after)
  {
    var id := p.userId;
    ApprovePayloadRoundTrip(id);
    assert ApproveButton(p).payload == ApprovePayload(id);
    var text := CallbackIdText(ApprovePayload(id));
    assert ApproveByText(users, text) == Approve(users, id);
    ApproveRemovesFromPending(users, id);
  }

  /** Pressing the button approves userId: its payload holds "approve_" and
      the text after the first '_' reads as userId. */
  predicate Targets(b: Button, userId: int) {
    Contains(b.payload, "approve_") && ParseInt(CallbackIdText(b.payload)) == Some(userId)
  }

  /** `approve_users`, given the rows `get_pending_users` returned: one
      button per pending user, in their order, or the "none pending" notice. */
  method ApproveUsers(pending: seq<PendingUser>) returns (reply: Reply)
    ensures reply == NoPendingUsers <==> pending == []
    ensures pending != [] ==>
      && reply.PendingList? && |reply.buttons| == |pending|
      && forall i :: 0 <= i < |pending| ==>
           && reply.buttons[i] == ApproveButton(pending[i])
           && reply.buttons[i].text == "Approve " + pending[i].email && Targets(reply.buttons[i], pending[i].userId)
  {
    if pending == [] {
      return NoPendingUsers;
    }
    var buttons: seq<Button> := [];
    for i := 0 to |pending|
      invariant |buttons| == i
      invariant forall k :: 0 <= k < i ==> buttons[k] == ApproveButton(pending[k])
    {
      buttons := buttons + [ApproveButton(pending[i])];
    }
    forall i | 0 <= i < |pending|
      ensures buttons[i].text == "Approve " + pending[i].email && Targets(buttons[i], pending[i].userId)
    {
      ApprovePayloadRoundTrip(pending[i].userId);
    }
    reply := PendingList(buttons);
  }

  /** The `approve_<id>` callback, as intended: approve the id in the payload
      and acknowledge with the id text. */
  method ApproveCallback(db: SubscriptionDb, data: string) returns (reply: Reply)
    requires db.Valid() && db.hasTables
    requires Contains(data, "approve_")
    modifies db
    ensures db.Valid() && db.hasTables && db.admin == old(db.admin)
    ensures db.users == ApproveByText(old(db.users), CallbackIdText(data))
    ensures reply == UserApproved(CallbackIdText(data))
  {
    var idText := CallbackIdText(data);
    var target := ParseInt(idText);
    if target.Some? {
      db.ApproveUser(target.value);
    }
    reply := UserApproved(idText);
  }

  // ---------------------------------------------------------------------
  // one subscriber from registration to approval

  /** The table holding just one subscriber's row. */
  function OneRow(userId: int, email: string, password: string, approved: bool): map<int, UserRow> {
    map[userId := UserRow(email, password, approved, false)]
  }

  /**
   * On a freshly set-up database, a subscriber who registers with `email
   * password` while the database is free is pending: the permission request
   * reaches the administrator, login reports pending, and the approval list
   * holds just them. Pressing their button approves them; then login
   * succeeds, a new request is answered "already approved" and nobody is
   * pending any more.
   */
  lemma SubscriberLifecycle(userId: int, email: string, password: string, conditions: seq<Condition>)
    requires email != [] && NoSpace(email) && password != [] && NoSpace(password) && email[0] != '/'
    requires MaxAttempts <= |conditions| && conditions[0] == Free
    ensures Registration(Setup(Fresh).users, userId, email + " " + password, conditions)
            == (Registered, OneRow(userId, email, password, false))
    ensures RequestPermission(OneRow(userId, email, password, false), userId) == ApprovalRequested(userId)
    ensures ProcessLogin(OneRow(userId, email, password, false), email + " " + password) == LoginPending
    ensures PendingUsers(OneRow(userId, email, password, false)) == [PendingUser(userId, email)]
    ensures Contains(ApprovePayload(userId), "approve_")
    ensures ApproveByText(OneRow(userId, email, password, false), CallbackIdText(ApprovePayload(userId)))
            == OneRow(userId, email, password, true)
    ensures ProcessLogin(OneRow(userId, email, password, true), email + " " + password) == LoginApproved
    ensures RequestPermission(OneRow(userId, email, password, true), userId) == AlreadyApproved
    ensures PendingUsers(OneRow(userId, email, password, true)) == []
  {
    RegistrationOnFresh(userId, email, password, conditions);
    SingleSubscriber(userId, email, password, false);
    ApproveOneRow(userId, email, password);
    SingleSubscriber(userId, email, password, true);
  }

  lemma ApproveOneRow(userId: int, email: string, password: string)
    ensures Contains(ApprovePayload(userId), "approve_")
    ensures ApproveByText(OneRow(userId, email, password, false), CallbackIdText(ApprovePayload(userId)))
            == OneRow(userId, email, password, true)
  {
    ApprovePayloadRoundTrip(userId);
    assert Approve(OneRow(userId, email, password, false), userId) == OneRow(userId, email, password, true);
  }

  lemma RegistrationOnFresh(userId: int, email: string, password: string, conditions: seq<Condition>)
    requires email != [] && NoSpace(email) && password != [] && NoSpace(password) && email[0] != '/'
    requires MaxAttempts <= |conditions| && conditions[0] == Free
    ensures Registration(Setup(Fresh).users, userId, email + " " + password, conditions)
            == (Registered, OneRow(userId, email, password, false))
  {
    var text := email + " " + password;
    CredentialsRoundTrip(email, password);
    assert text[0] == email[0];
    assert FirstUnlocked(conditions, 0) == 0;
    AddFromDecided(map[], userId, email, password, conditions, 0);
  }

  /** What the handlers report about the only row of a table. */
  lemma SingleSubscriber(userId: int, email: string, password: string, approved: bool)
    requires email != [] && NoSpace(email) && password != [] && NoSpace(password) && email[0] != '/'
    ensures ProcessLogin(OneRow(userId, email, password, approved), email + " " + password)
            == if approved then LoginApproved else LoginPending
    ensures RequestPermission(OneRow(userId, email, password, approved), userId)
            == if approved then AlreadyApproved else ApprovalRequested(userId)
    ensures PendingUsers(OneRow(userId, email, password, approved))
            == if approved then [] else [PendingUser(userId, email)]
  {
    LoginOfOneRow(userId, email, password, approved);
    PendingOfSingleRow(userId, UserRow(email, password, approved, false));
  }

  lemma LoginOfOneRow(userId: int, email: string, password: string, approved: bool)
    requires email != [] && NoSpace(email) && password != [] && NoSpace(password) && email[0] != '/'
    ensures LoginMatch(OneRow(userId, email, password, approved), email, password) == Some(approved)
    ensures ProcessLogin(OneRow(userId, email, password, approved), email + " " + password)
            == if approved then LoginApproved else LoginPending
  {
    var users := OneRow(userId, email, password, approved);
    var text := email + " " + password;
    CredentialsRoundTrip(email, password);
    assert text[0] == email[0];
    assert HasCredentials(users, userId, email, password);
    var m := LoginMatch(users, email, password);
    var id :| HasCredentials(users, id, email, password) && users[id].approved == m.value;
    assert id == userId;
  }
}
