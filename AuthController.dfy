/** Registration, OTP verification and refresh-token issuing
    (src/controllers/auth.controller.js). Each operation is given twice: as a
    function from the store before to the store after and the answer (the
    specification the lemmas are about), and as a method that checks the
    same guards and updates a `Db` in place. */
module AuthController {
  import opened Json
  import opened Store

  const AllFieldsRequired := "All fields are required"
  const UserExists := "User with email or username already exists"
  const TrimIsNotAFunction := "field?.trim is not a function"
  const InvalidOtp := "Invalid OTP"
  const OtpVerified := "OTP verified successfully"
  const TokenFailure := "Something went wrong while generating refresh and access token"

  /** `Math.floor(1000 + Math.random() * 9000)`, where `rand` is the value
      `Math.random()` returned, in [0, 1). */
  function OtpFromRandom(rand: real): (code: int)
    requires 0.0 <= rand < 1.0
    ensures 1000 <= code <= 9999
  {
    (1000.0 + rand * 9000.0).Floor
  }

  /** Every four-digit code from 1000 to 9999 can be drawn. */
  lemma EveryCodeDrawable(code: int)
    requires 1000 <= code <= 9999
    ensures 0.0 <= (code - 1000) as real / 9000.0 < 1.0
    ensures OtpFromRandom((code - 1000) as real / 9000.0) == code
  {
    var rand := (code - 1000) as real / 9000.0;
    assert 1000.0 + rand * 9000.0 == code as real;
  }

  // ---------------------------------------------------------------------
  // registerUser

  /** registerUser up to the point where the OTP is handed to the mailer:
      the answer is the code that is mailed. */
  function RegisterStep(s: State, email: JValue, password: JValue, rand: real): (r: Step<int>)
    requires 0.0 <= rand < 1.0
    ensures r.outcome.Err? ==> r.after == s
    ensures r.outcome == Err(ApiError(500, TrimIsNotAFunction)) <==>
      TestField(email) == Throws || (TestField(email) == NotBlank && TestField(password) == Throws)
    ensures r.outcome == Err(ApiError(401, AllFieldsRequired)) <==>
      TestField(email) == Blank || (TestField(email) == NotBlank && TestField(password) == Blank)
    ensures r.outcome == Err(ApiError(401, UserExists)) <==>
      TestField(email) == NotBlank && TestField(password) == NotBlank && HasEmail(s.users, email)
    ensures r.outcome.Ok? <==>
      TestField(email) == NotBlank && TestField(password) == NotBlank && !HasEmail(s.users, email)
    ensures r.outcome.Ok? ==>
      && 1000 <= r.outcome.value <= 9999
      && r.after.users.Keys == s.users.Keys + {s.clock}
      && r.after.users[s.clock] == NewUser(email, password)
      && (forall id :: id in s.users && id != s.clock ==> r.after.users[id] == s.users[id])
      && |r.after.otps| == |s.otps| + 1 && r.after.otps[..|s.otps|] == s.otps
      && r.after.otps[|s.otps|].email == email
      && r.after.otps[|s.otps|].otp == Num(r.outcome.value)
  {
    SomeBlankPair(email, password);
    match SomeBlank([email, password])
    case Throws => Step(s, Err(ApiError(500, TrimIsNotAFunction)))
    case Blank => Step(s, Err(ApiError(401, AllFieldsRequired)))
    case NotBlank =>
      if HasEmail(s.users, email) then Step(s, Err(ApiError(401, UserExists)))
      else
        var code := OtpFromRandom(rand);
        var users := s.users[s.clock := NewUser(email, password)];
        var otps := s.otps + [OtpRecord(s.clock + 1, email, Num(code), s.clock + 1)];
        Step(State(users, otps, s.clock + 2), Ok(code))
  }

  method RegisterUser(db: Db, email: JValue, password: JValue, rand: real) returns (r: Outcome<int>)
    requires db.Valid()
    requires 0.0 <= rand < 1.0
    modifies db
    ensures db.Valid()
    ensures Step(db.Snapshot(), r) == RegisterStep(old(db.Snapshot()), email, password, rand)
  {
    ghost var spec := RegisterStep(db.Snapshot(), email, password, rand);
    var blank := SomeBlank([email, password]);
    if blank == Throws {
      return Err(ApiError(500, TrimIsNotAFunction));
    }
    if blank == Blank {
      return Err(ApiError(401, AllFieldsRequired));
    }
    if HasEmail(db.users, email) {
      return Err(ApiError(401, UserExists));
    }
    db.users := db.users[db.clock := NewUser(email, password)];
    db.clock := db.clock + 1;
    var otp := OtpFromRandom(rand);
    db.otps := db.otps + [OtpRecord(db.clock, email, Num(otp), db.clock)];
    db.clock := db.clock + 1;
    r := Ok(otp);
    assert Step(db.Snapshot(), r) == spec;
    RegisterKeepsInv(old(db.Snapshot()), email, password, rand);
  }

  /** Registration keeps the store invariant; in particular, emails stay
      unique. */
  lemma RegisterKeepsInv(s: State, email: JValue, password: JValue, rand: real)
    requires 0.0 <= rand < 1.0
    requires Inv(s)
    ensures Inv(RegisterStep(s, email, password, rand).after)
  {
    var r := RegisterStep(s, email, password, rand);
    if r.outcome.Ok? {
      AddUserKeepsUnique(s.users, s.clock, NewUser(email, password));
      AppendKeepsOrdered(s.otps, s.clock, OtpRecord(s.clock + 1, email, Num(r.outcome.value), s.clock + 1), s.clock + 2);
    }
  }

  /** A blank email, whatever the password, or a blank password after an
      email that passes the check, is refused with 401 and nothing is stored. */
  lemma RegisterRejectsBlank(s: State, email: JValue, password: JValue, rand: real)
    requires 0.0 <= rand < 1.0
    requires (email.Str? && Trim(email.s) == "") ||
             (TestField(email) == NotBlank && password.Str? && Trim(password.s) == "")
    ensures RegisterStep(s, email, password, rand) == Step(s, Err(ApiError(401, AllFieldsRequired)))
  {
    if email.Str? {
      TrimEmptyIff(email.s);
    }
    if password.Str? {
      TrimEmptyIff(password.s);
    }
  }

  /** A field that is absent from the request is not caught by the blank
      check: with both fields absent, registration goes through as long as
      no stored user has an absent email. */
  lemma AbsentFieldsPassBlankCheck(s: State, rand: real)
    requires 0.0 <= rand < 1.0
    requires !HasEmail(s.users, Undefined)
    ensures RegisterStep(s, Undefined, Undefined, rand).outcome.Ok?
  {
  }

  /** Registering the same email a second time, with a second password that
      is a non-blank string, absent or null, is refused with 401 "already
      exists", however the first registration's password and code came out. */
  lemma SecondRegisterConflicts(s: State, email: JValue, p1: JValue, p2: JValue, r1: real, r2: real)
    requires 0.0 <= r1 < 1.0 && 0.0 <= r2 < 1.0
    requires RegisterStep(s, email, p1, r1).outcome.Ok?
    requires TestField(p2) == NotBlank
    ensures var t := RegisterStep(s, email, p1, r1).after;
      RegisterStep(t, email, p2, r2) == Step(t, Err(ApiError(401, UserExists)))
  {
    var t := RegisterStep(s, email, p1, r1).after;
    assert t.users[s.clock].email == email;
  }

  // ---------------------------------------------------------------------
  // verifyOTP

  /** `User.findOneAndUpdate({ email }, { isVerified: true })`. With unique
      emails this touches at most one record; no record at all when no user
      has the email. */
  function MarkVerified(users: map<Id, User>, email: JValue): (r: map<Id, User>)
    ensures SameEmails(users, r)
    ensures forall id :: id in users ==>
      && r[id].isVerified == (users[id].isVerified || users[id].email == email)
      && r[id].(isVerified := users[id].isVerified) == users[id]
    ensures UniqueEmails(users) ==>
      forall a, b :: a in users && b in users && users[a] != r[a] && users[b] != r[b] ==> a == b
  {
    map id | id in users :: if users[id].email == email then users[id].(isVerified := true) else users[id]
  }

  function VerifyOtpStep(s: State, email: JValue, otp: JValue): (r: Step<Reply<()>>)
    ensures r.outcome.Ok? <==>
      Newest(s.otps, email).Some? && s.otps[Newest(s.otps, email).value].otp == otp
    ensures r.outcome.Err? ==> r.after == s && r.outcome.error == ApiError(400, InvalidOtp)
    ensures r.outcome.Ok? ==>
      && r.outcome.value == Reply(Created, (), OtpVerified)
      && r.after.clock == s.clock
      && r.after.users.Keys == s.users.Keys
      && (forall id :: id in s.users ==>
            r.after.users[id] ==
              if s.users[id].email == email then s.users[id].(isVerified := true) else s.users[id])
    ensures r.outcome.Ok? && Inv(s) ==>
      var i := Newest(s.otps, email).value;
      r.after.otps == s.otps[..i] + s.otps[i + 1..]
  {
    match Newest(s.otps, email)
    case None => Step(s, Err(ApiError(400, InvalidOtp)))
    case Some(i) =>
      if s.otps[i].otp != otp then Step(s, Err(ApiError(400, InvalidOtp)))
      else
        var after := State(MarkVerified(s.users, email), DeleteById(s.otps, s.otps[i].id), s.clock);
        assert Inv(s) ==> after.otps == s.otps[..i] + s.otps[i + 1..] by {
          if Inv(s) {
            DeleteByIdAt(s.otps, i);
          }
        }
        Step(after, Ok(Reply(Created, (), OtpVerified)))
  }

  method VerifyOtp(db: Db, email: JValue, otp: JValue) returns (r: Outcome<Reply<()>>)
    requires db.Valid()
    modifies db
    ensures db.Valid()
    ensures Step(db.Snapshot(), r) == VerifyOtpStep(old(db.Snapshot()), email, otp)
  {
    ghost var spec := VerifyOtpStep(db.Snapshot(), email, otp);
    var newest := Newest(db.otps, email);
    if newest.None? || db.otps[newest.value].otp != otp {
      return Err(ApiError(400, InvalidOtp));
    }
    var record := db.otps[newest.value];
    db.users := MarkVerified(db.users, email);
    db.otps := DeleteById(db.otps, record.id);
    r := Ok(Reply(Created, (), OtpVerified));
    assert Step(db.Snapshot(), r) == spec;
    VerifyKeepsInv(old(db.Snapshot()), email, otp);
  }

  /** Verification keeps the store invariant. */
  lemma VerifyKeepsInv(s: State, email: JValue, otp: JValue)
    requires Inv(s)
    ensures Inv(VerifyOtpStep(s, email, otp).after)
  {
    var r := VerifyOtpStep(s, email, otp);
    if r.outcome.Ok? {
      RemovalKeepsOrdered(s.otps, s.clock, Newest(s.otps, email).value);
      SameEmailsKeepInv(s, r.after);
    }
  }

  /** Only the newest record counts: an older record whose code matches is not
      accepted when the newest one's code differs. Only registration creates
      OTP records, so no store a run from the empty store reaches holds two
      records for one email (`Sessions.ReachableIsHealthy`): this case arises
      only in a store seeded by other means. */
  lemma OlderMatchIgnored(s: State, email: JValue, otp: JValue, older: nat, newest: nat)
    requires Inv(s)
    requires older < newest < |s.otps|
    requires s.otps[older].email == email && s.otps[older].otp == otp
    requires s.otps[newest].email == email && s.otps[newest].otp != otp
    requires forall j :: newest < j < |s.otps| ==> s.otps[j].email != email
    ensures VerifyOtpStep(s, email, otp) == Step(s, Err(ApiError(400, InvalidOtp)))
  {
    NewestIsLast(s, email, newest);
  }

  /** After a successful verification the consumed record is gone: no record
      left in the store carries its id, so it cannot be matched again. */
  lemma ConsumedRecordGone(s: State, email: JValue, otp: JValue)
    requires Inv(s)
    requires VerifyOtpStep(s, email, otp).outcome.Ok?
    ensures var consumed := s.otps[Newest(s.otps, email).value].id;
      forall k :: 0 <= k < |VerifyOtpStep(s, email, otp).after.otps| ==>
        VerifyOtpStep(s, email, otp).after.otps[k].id != consumed
  {
    var i := Newest(s.otps, email).value;
    var rest := VerifyOtpStep(s, email, otp).after.otps;
    RemovalShiftsIndices(s.otps, i);
    forall k | 0 <= k < |rest| ensures rest[k].id != s.otps[i].id {
      assert rest[k] == s.otps[if k < i then k else k + 1];
    }
  }

  /** The code registration mails out verifies the new account: sent back as
      the number it was stored as, it matches the newest record for the email,
      and the account registration created becomes verified. */
  lemma FreshCodeVerifies(s: State, email: JValue, password: JValue, rand: real)
    requires 0.0 <= rand < 1.0
    requires Inv(s)
    requires RegisterStep(s, email, password, rand).outcome.Ok?
    ensures var reg := RegisterStep(s, email, password, rand);
      var v := VerifyOtpStep(reg.after, email, Num(reg.outcome.value));
      v.outcome.Ok? && v.after.users[s.clock].isVerified
  {
    var reg := RegisterStep(s, email, password, rand);
    RegisterKeepsInv(s, email, password, rand);
    NewestIsLast(reg.after, email, |s.otps|);
  }

  /** The code is stored as a number and compared with `!==`, so the same
      digits sent back as a string never verify the freshly registered email. */
  lemma TextCodeRefused(s: State, email: JValue, password: JValue, rand: real, text: string)
    requires 0.0 <= rand < 1.0
    requires Inv(s)
    requires RegisterStep(s, email, password, rand).outcome.Ok?
    ensures var t := RegisterStep(s, email, password, rand).after;
      VerifyOtpStep(t, email, Str(text)) == Step(t, Err(ApiError(400, InvalidOtp)))
  {
    var reg := RegisterStep(s, email, password, rand);
    RegisterKeepsInv(s, email, password, rand);
    NewestIsLast(reg.after, email, |s.otps|);
  }

  // ---------------------------------------------------------------------
  // generateAccessAndRefreshTokens

  datatype TokenPair = TokenPair(accessToken: Token, refreshToken: Token)

  /** `minted` is what the user model's JWT methods produced, or `None` when
      one of them threw. */
  function TokensStep(s: State, userId: Id, minted: Option<TokenPair>): (r: Step<TokenPair>)
    ensures r.outcome.Err? <==> userId !in s.users || minted.None?
    ensures r.outcome.Err? ==> r.after == s && r.outcome.error == ApiError(500, TokenFailure)
    ensures r.outcome.Ok? ==>
      && r.outcome.value == minted.value
      && r.after.otps == s.otps && r.after.clock == s.clock
      && r.after.users.Keys == s.users.Keys
      && r.after.users[userId].refreshToken == Some(minted.value.refreshToken)
      && r.after.users[userId].(refreshToken := s.users[userId].refreshToken) == s.users[userId]
      && (forall id :: id in s.users && id != userId ==> r.after.users[id] == s.users[id])
  {
    if userId !in s.users || minted.None? then Step(s, Err(ApiError(500, TokenFailure)))
    else
      var user := s.users[userId].(refreshToken := Some(minted.value.refreshToken));
      Step(s.(users := s.users[userId := user]), Ok(minted.value))
  }

  method GenerateAccessAndRefreshTokens(db: Db, userId: Id, minted: Option<TokenPair>)
    returns (r: Outcome<TokenPair>)
    requires db.Valid()
    modifies db
    ensures db.Valid()
    ensures Step(db.Snapshot(), r) == TokensStep(old(db.Snapshot()), userId, minted)
  {
    if userId !in db.users || minted.None? {
      return Err(ApiError(500, TokenFailure));
    }
    var user := db.users[userId];
    user := user.(refreshToken := Some(minted.value.refreshToken));
    db.users := db.users[userId := user];
    r := Ok(minted.value);
    SameEmailsKeepInv(old(db.Snapshot()), db.Snapshot());
  }

  /** Issuing tokens revokes every earlier refresh token of that user: after a
      successful issue the store accepts exactly the token just returned. */
  lemma IssueRevokesEarlierRefresh(s: State, userId: Id, minted: Option<TokenPair>, token: Token)
    requires TokensStep(s, userId, minted).outcome.Ok?
    ensures AcceptsRefresh(TokensStep(s, userId, minted).after, userId, token) <==>
      token == TokensStep(s, userId, minted).outcome.value.refreshToken
  {
  }
}
