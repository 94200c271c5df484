/** What holds over any sequence of the controllers' operations, run one after
    another against the same store. */
module Sessions {
  import opened Json
  import opened Store
  import opened AuthController
  import opened UserController

  /** One request that changes the store. */
  datatype Op =
    | Register(email: JValue, password: JValue, rand: real)
    | Verify(email: JValue, otp: JValue)
    | IssueTokens(userId: Id, minted: Option<TokenPair>)
    | ChangePassword(userId: Id, oldPassword: JValue, newPassword: JValue)
    | UpdateAccount(userId: Id, location: JValue, age: JValue, workDetails: JValue)

  /** `Math.random()` returned a value in [0, 1). */
  predicate WellFormed(op: Op) {
    op.Register? ==> 0.0 <= op.rand < 1.0
  }

  function Exec(s: State, op: Op): (t: State)
    requires WellFormed(op)
    ensures Inv(s) ==> Inv(t)
  {
    ExecKeepsInv(s, op);
    match op
    case Register(email, password, rand) => RegisterStep(s, email, password, rand).after
    case Verify(email, otp) => VerifyOtpStep(s, email, otp).after
    case IssueTokens(userId, minted) => TokensStep(s, userId, minted).after
    case ChangePassword(userId, oldPassword, newPassword) =>
      ChangePasswordStep(s, userId, oldPassword, newPassword).after
    case UpdateAccount(userId, location, age, workDetails) =>
      UpdateAccountStep(s, userId, location, age, workDetails).after
  }

  lemma ExecKeepsInv(s: State, op: Op)
    requires WellFormed(op)
    ensures Inv(s) ==> Inv(
      match op
      case Register(email, password, rand) => RegisterStep(s, email, password, rand).after
      case Verify(email, otp) => VerifyOtpStep(s, email, otp).after
      case IssueTokens(userId, minted) => TokensStep(s, userId, minted).after
      case ChangePassword(userId, oldPassword, newPassword) =>
        ChangePasswordStep(s, userId, oldPassword, newPassword).after
      case UpdateAccount(userId, location, age, workDetails) =>
        UpdateAccountStep(s, userId, location, age, workDetails).after)
  {
    if Inv(s) {
      match op
      case Register(email, password, rand) => RegisterKeepsInv(s, email, password, rand);
      case Verify(email, otp) => VerifyKeepsInv(s, email, otp);
      case IssueTokens(userId, minted) =>
        SameEmailsKeepInv(s, TokensStep(s, userId, minted).after);
      case ChangePassword(userId, oldPassword, newPassword) =>
        SameEmailsKeepInv(s, ChangePasswordStep(s, userId, oldPassword, newPassword).after);
      case UpdateAccount(userId, location, age, workDetails) =>
        SameEmailsKeepInv(s, UpdateAccountStep(s, userId, location, age, workDetails).after);
    }
  }

  /** The store after running `ops` in order. Every run keeps the invariant,
      so in particular no two users ever share an email. */
  function Run(s: State, ops: seq<Op>): (t: State)
    requires forall k :: 0 <= k < |ops| ==> WellFormed(ops[k])
    ensures Inv(s) ==> Inv(t)
    ensures t.clock >= s.clock
    decreases |ops|
  {
    if ops == [] then s
    else
      ExecStampsFresh(s, ops[0]);
      Run(Exec(s, ops[0]), ops[1..])
  }

  /** An operation only removes OTP records or adds ones stamped with an id
      the counter has not handed out before. */
  lemma ExecStampsFresh(s: State, op: Op)
    requires WellFormed(op)
    ensures Exec(s, op).clock >= s.clock
    ensures forall k :: 0 <= k < |Exec(s, op).otps| ==>
      Exec(s, op).otps[k] in s.otps || Exec(s, op).otps[k].id >= s.clock
  {
    match op
    case Register(email, password, rand) =>
      var t := RegisterStep(s, email, password, rand);
      if t.outcome.Ok? {
        forall k | 0 <= k < |t.after.otps| ensures t.after.otps[k] in s.otps || t.after.otps[k].id >= s.clock {
          if k < |s.otps| {
            assert t.after.otps[k] == t.after.otps[..|s.otps|][k];
          }
        }
      }
    case Verify(email, otp) =>
      var t := VerifyOtpStep(s, email, otp);
      if t.outcome.Ok? {
        var i := Newest(s.otps, email).value;
        assert t.after.otps == DeleteById(s.otps, s.otps[i].id);
      }
    case IssueTokens(_, _) =>
    case ChangePassword(_, _, _) =>
    case UpdateAccount(_, _, _, _) =>
  }

  /** A record id that is below the counter and absent from the store never
      comes back, whatever runs next. */
  lemma {:induction false} AbsentIdStaysAbsent(s: State, ops: seq<Op>, id: Id)
    requires forall k :: 0 <= k < |ops| ==> WellFormed(ops[k])
    requires id < s.clock
    requires forall k :: 0 <= k < |s.otps| ==> s.otps[k].id != id
    ensures forall k :: 0 <= k < |Run(s, ops).otps| ==> Run(s, ops).otps[k].id != id
    decreases |ops|
  {
    if ops != [] {
      var t := Exec(s, ops[0]);
      ExecStampsFresh(s, ops[0]);
      forall k | 0 <= k < |t.otps| ensures t.otps[k].id != id {
        if t.otps[k] in s.otps {
          var j :| 0 <= j < |s.otps| && s.otps[j] == t.otps[k];
        }
      }
      AbsentIdStaysAbsent(t, ops[1..], id);
    }
  }

  /** A consumed OTP record is single-use: once verifyOTP has deleted it, no
      later sequence of operations brings a record with its id back, so it
      can never be matched again. */
  lemma ConsumedNeverMatchesAgain(s: State, email: JValue, otp: JValue, ops: seq<Op>)
    requires Inv(s)
    requires VerifyOtpStep(s, email, otp).outcome.Ok?
    requires forall k :: 0 <= k < |ops| ==> WellFormed(ops[k])
    ensures var consumed := s.otps[Newest(s.otps, email).value].id;
      var later := Run(VerifyOtpStep(s, email, otp).after, ops);
      forall k :: 0 <= k < |later.otps| ==> later.otps[k].id != consumed
  {
    ConsumedRecordGone(s, email, otp);
    var i := Newest(s.otps, email).value;
    AbsentIdStaysAbsent(VerifyOtpStep(s, email, otp).after, ops, s.otps[i].id);
  }

  // ---------------------------------------------------------------------
  // One OTP record per account

  /** Every OTP record belongs to a registered account, and no account has
      two. */
  ghost predicate OtpPerAccount(s: State) {
    && (forall k :: 0 <= k < |s.otps| ==> HasEmail(s.users, s.otps[k].email))
    && (forall a, b :: 0 <= a < b < |s.otps| ==> s.otps[a].email != s.otps[b].email)
  }

  /** Both invariants together. */
  ghost predicate Healthy(s: State) {
    Inv(s) && OtpPerAccount(s)
  }

  lemma ExecKeepsOtpPerAccount(s: State, op: Op)
    requires WellFormed(op)
    requires Inv(s) && OtpPerAccount(s)
    ensures OtpPerAccount(Exec(s, op))
  {
    match op
    case Register(email, password, rand) =>
      RegisterKeepsOtpPerAccount(s, email, password, rand);
    case Verify(email, otp) =>
      VerifyKeepsOtpPerAccount(s, email, otp);
    case IssueTokens(_, _) =>
      KeepsAccounts(s, Exec(s, op));
    case ChangePassword(_, _, _) =>
      KeepsAccounts(s, Exec(s, op));
    case UpdateAccount(_, _, _, _) =>
      KeepsAccounts(s, Exec(s, op));
  }

  /** Registration adds a record only for an email no account has yet. */
  lemma RegisterKeepsOtpPerAccount(s: State, email: JValue, password: JValue, rand: real)
    requires 0.0 <= rand < 1.0
    requires Inv(s) && OtpPerAccount(s)
    ensures OtpPerAccount(RegisterStep(s, email, password, rand).after)
  {
    var step := RegisterStep(s, email, password, rand);
    var t := step.after;
    if step.outcome.Ok? {
      var n := |s.otps|;
      forall k | 0 <= k < |t.otps| ensures HasEmail(t.users, t.otps[k].email) {
        if k < n {
          assert t.otps[k] == t.otps[..n][k] == s.otps[k];
          var id :| id in s.users && s.users[id].email == s.otps[k].email;
          assert t.users[id] == s.users[id];
        } else {
          assert t.users[s.clock].email == email;
        }
      }
      forall a, b | 0 <= a < b < |t.otps| ensures t.otps[a].email != t.otps[b].email {
        assert t.otps[a] == t.otps[..n][a] == s.otps[a];
        if b < n {
          assert t.otps[b] == t.otps[..n][b] == s.otps[b];
        }
      }
    }
  }

  /** Verification only removes a record and renames no account. */
  lemma VerifyKeepsOtpPerAccount(s: State, email: JValue, otp: JValue)
    requires Inv(s) && OtpPerAccount(s)
    ensures OtpPerAccount(VerifyOtpStep(s, email, otp).after)
  {
    var step := VerifyOtpStep(s, email, otp);
    if step.outcome.Ok? {
      var i := Newest(s.otps, email).value;
      assert SameEmails(s.users, step.after.users);
      RemovalKeepsOtpPerAccount(s, step.after, i);
    }
  }

  lemma RemovalKeepsOtpPerAccount(s: State, t: State, i: nat)
    requires OtpPerAccount(s)
    requires i < |s.otps| && t.otps == s.otps[..i] + s.otps[i + 1..]
    requires SameEmails(s.users, t.users)
    ensures OtpPerAccount(t)
  {
    RemovalShiftsIndices(s.otps, i);
    forall k | 0 <= k < |t.otps| ensures HasEmail(t.users, t.otps[k].email) {
      var j := if k < i then k else k + 1;
      assert t.otps[k] == s.otps[j];
      assert HasEmail(s.users, s.otps[j].email);
      SameEmailsHasEmail(s.users, t.users, t.otps[k].email);
    }
    forall a, b | 0 <= a < b < |t.otps| ensures t.otps[a].email != t.otps[b].email {
      assert t.otps[a] == s.otps[if a < i then a else a + 1];
      assert t.otps[b] == s.otps[if b < i then b else b + 1];
    }
  }

  /** An operation that leaves the OTP records and every account's email as
      they were keeps OtpPerAccount. */
  lemma KeepsAccounts(s: State, t: State)
    requires OtpPerAccount(s)
    requires t.otps == s.otps && SameEmails(s.users, t.users)
    ensures OtpPerAccount(t)
  {
    forall k | 0 <= k < |t.otps| ensures HasEmail(t.users, t.otps[k].email) {
      SameEmailsHasEmail(s.users, t.users, t.otps[k].email);
    }
  }

  /** From a store where each OTP record belongs to a distinct registered
      account, every run keeps that so. */
  lemma {:induction false} RunKeepsOtpPerAccount(s: State, ops: seq<Op>)
    requires forall k :: 0 <= k < |ops| ==> WellFormed(ops[k])
    requires Inv(s) && OtpPerAccount(s)
    ensures OtpPerAccount(Run(s, ops))
    decreases |ops|
  {
    if ops != [] {
      ExecKeepsOtpPerAccount(s, ops[0]);
      RunKeepsOtpPerAccount(Exec(s, ops[0]), ops[1..]);
    }
  }

  /** In a store where each account has at most one OTP record, a code that
      verified once is refused with 400 when sent again, and so is any other
      code for that email. */
  lemma ReplayRefused(s: State, email: JValue, otp: JValue, again: JValue)
    requires Healthy(s)
    requires VerifyOtpStep(s, email, otp).outcome.Ok?
    ensures var t := VerifyOtpStep(s, email, otp).after;
      VerifyOtpStep(t, email, again) == Step(t, Err(ApiError(400, InvalidOtp)))
  {
    var i := Newest(s.otps, email).value;
    var t := VerifyOtpStep(s, email, otp).after;
    RemovalShiftsIndices(s.otps, i);
    forall k | 0 <= k < |t.otps| ensures t.otps[k].email != email {
      var j := if k < i then k else k + 1;
      assert t.otps[k] == s.otps[j];
      assert j != i;
    }
  }

  /** A store some well-formed run from the empty store produces. */
  ghost predicate Reachable(s: State) {
    exists ops :: (forall k :: 0 <= k < |ops| ==> WellFormed(ops[k])) && Run(Empty, ops) == s
  }

  /** The end-to-end consequence: in any store a run from the empty store
      reaches, a successful verification cannot be replayed. */
  lemma ReplayRefusedAfterAnyRun(s: State, email: JValue, otp: JValue, again: JValue)
    requires Reachable(s)
    requires VerifyOtpStep(s, email, otp).outcome.Ok?
    ensures var t := VerifyOtpStep(s, email, otp).after;
      VerifyOtpStep(t, email, again) == Step(t, Err(ApiError(400, InvalidOtp)))
  {
    ReachableIsHealthy(s);
    ReplayRefused(s, email, otp, again);
  }

  /** Every store reachable from the empty one keeps both invariants. */
  lemma ReachableIsHealthy(s: State)
    requires Reachable(s)
    ensures Healthy(s)
  {
    var ops :| (forall k :: 0 <= k < |ops| ==> WellFormed(ops[k])) && Run(Empty, ops) == s;
    EmptyIsHealthy();
    RunKeepsOtpPerAccount(Empty, ops);
  }

  /** The empty store holds no account and no OTP record. */
  lemma EmptyIsHealthy()
    ensures Healthy(Empty)
  {
  }

  // ---------------------------------------------------------------------
  // The refresh-token anchor

  /** Only issuing tokens changes which refresh tokens the store honours:
      registration, verification, password change and profile update leave
      every user's stored refresh token as it was. */
  lemma OnlyIssuingMovesTheAnchor(s: State, op: Op, userId: Id, token: Token)
    requires WellFormed(op) && Inv(s)
    requires !op.IssueTokens?
    ensures AcceptsRefresh(Exec(s, op), userId, token) <==> AcceptsRefresh(s, userId, token)
  {
  }
}
