/** Password change, profile update and the current-user read
    (src/controllers/user.controller.js). The user id is the one the
    authorization middleware attached to the request. */
module UserController {
  import opened Json
  import opened Store

  const InvalidOldPassword := "Invalid old password"
  const NullUser := "Cannot read properties of null (reading 'isPasswordCorrect')"
  const PasswordChanged := "Password changed successfully"
  const AtLeastOneField := "At least one field (location, age, or workDetails) is required"
  const AccountUpdated := "Account details updated successfully"
  const UserFetched := "User details fetched successfully"

  // ---------------------------------------------------------------------
  // changeCurrentPassword

  /** A missing user record makes `user.isPasswordCorrect` throw a TypeError,
      which surfaces as status 500. */
  function ChangePasswordStep(s: State, userId: Id, oldPassword: JValue, newPassword: JValue)
    : (r: Step<Reply<()>>)
    ensures r.outcome.Err? ==> r.after == s
    ensures r.outcome == Err(ApiError(500, NullUser)) <==> userId !in s.users
    ensures r.outcome == Err(ApiError(401, InvalidOldPassword)) <==>
      userId in s.users && !IsPasswordCorrect(oldPassword, s.users[userId].password)
    ensures r.outcome.Ok? <==>
      userId in s.users && IsPasswordCorrect(oldPassword, s.users[userId].password)
    ensures r.outcome.Ok? ==>
      && r.outcome.value == Reply(Created, (), PasswordChanged)
      && r.after.otps == s.otps && r.after.clock == s.clock
      && r.after.users.Keys == s.users.Keys
      && IsPasswordCorrect(newPassword, r.after.users[userId].password)
      && r.after.users[userId].(password := s.users[userId].password) == s.users[userId]
      && (forall id :: id in s.users && id != userId ==> r.after.users[id] == s.users[id])
  {
    if userId !in s.users then Step(s, Err(ApiError(500, NullUser)))
    else
      var user := s.users[userId];
      if !IsPasswordCorrect(oldPassword, user.password) then
        Step(s, Err(ApiError(401, InvalidOldPassword)))
      else
        var users := s.users[userId := user.(password := Hashed(newPassword))];
        Step(s.(users := users), Ok(Reply(Created, (), PasswordChanged)))
  }

  method ChangeCurrentPassword(db: Db, userId: Id, oldPassword: JValue, newPassword: JValue)
    returns (r: Outcome<Reply<()>>)
    requires db.Valid()
    modifies db
    ensures db.Valid()
    ensures Step(db.Snapshot(), r) == ChangePasswordStep(old(db.Snapshot()), userId, oldPassword, newPassword)
  {
    if userId !in db.users {
      return Err(ApiError(500, NullUser));
    }
    var user := db.users[userId];
    if !IsPasswordCorrect(oldPassword, user.password) {
      return Err(ApiError(401, InvalidOldPassword));
    }
    user := user.(password := Hashed(newPassword));
    db.users := db.users[userId := user];
    r := Ok(Reply(Created, (), PasswordChanged));
    SameEmailsKeepInv(old(db.Snapshot()), db.Snapshot());
  }

  /** After a successful change the previous password no longer opens the
      account (unless it was set again), while the new one does. */
  lemma OldPasswordRetired(s: State, userId: Id, oldPassword: JValue, newPassword: JValue, next: JValue)
    requires ChangePasswordStep(s, userId, oldPassword, newPassword).outcome.Ok?
    ensures var t := ChangePasswordStep(s, userId, oldPassword, newPassword).after;
      ChangePasswordStep(t, userId, oldPassword, next).outcome.Ok? <==> oldPassword == newPassword
  {
  }

  /** Changing the password does not end any session: the stored refresh
      token still decides which refresh token is honoured. */
  lemma PasswordChangeKeepsSessions(s: State, userId: Id, oldPassword: JValue, newPassword: JValue, id: Id, token: Token)
    ensures var t := ChangePasswordStep(s, userId, oldPassword, newPassword).after;
      AcceptsRefresh(t, id, token) <==> AcceptsRefresh(s, id, token)
  {
  }

  // ---------------------------------------------------------------------
  // updateAccountDetails

  /** The `$set` document: a field is present exactly when the request's value
      for it is truthy. */
  datatype Patch = Patch(location: Option<JValue>, age: Option<JValue>, workDetails: Option<JValue>)

  function PatchOf(location: JValue, age: JValue, workDetails: JValue): (p: Patch)
    ensures p.location.Some? <==> Truthy(location)
    ensures p.age.Some? <==> Truthy(age)
    ensures p.workDetails.Some? <==> Truthy(workDetails)
    ensures p.location.Some? ==> p.location.value == location
    ensures p.age.Some? ==> p.age.value == age
    ensures p.workDetails.Some? ==> p.workDetails.value == workDetails
  {
    Patch(
      if Truthy(location) then Some(location) else None,
      if Truthy(age) then Some(age) else None,
      if Truthy(workDetails) then Some(workDetails) else None)
  }

  function Override(kept: JValue, field: Option<JValue>): JValue {
    if field.Some? then field.value else kept
  }

  /** `$set` with a patch: present fields overwrite, absent ones are kept, and
      nothing outside the three profile fields is touched. */
  function ApplyPatch(u: User, p: Patch): (w: User)
    ensures w.(location := u.location, age := u.age, workDetails := u.workDetails) == u
    ensures p == Patch(None, None, None) ==> w == u
    ensures w.location == if p.location.Some? then p.location.value else u.location
    ensures w.age == if p.age.Some? then p.age.value else u.age
    ensures w.workDetails == if p.workDetails.Some? then p.workDetails.value else u.workDetails
  {
    u.(location := Override(u.location, p.location),
       age := Override(u.age, p.age),
       workDetails := Override(u.workDetails, p.workDetails))
  }

  /** Applying a patch a second time changes nothing more. */
  lemma ApplyPatchIdempotent(u: User, p: Patch)
    ensures ApplyPatch(ApplyPatch(u, p), p) == ApplyPatch(u, p)
  {
  }

  /** `findByIdAndUpdate` with an id that matches no record returns `null`,
      which is sent back with status 201 (`None` here). */
  function UpdateAccountStep(s: State, userId: Id, location: JValue, age: JValue, workDetails: JValue)
    : (r: Step<Reply<Option<UserView>>>)
    ensures r.outcome.Err? <==> !(Truthy(location) || Truthy(age) || Truthy(workDetails))
    ensures r.outcome.Err? ==> r.after == s && r.outcome.error == ApiError(401, AtLeastOneField)
    ensures r.outcome.Ok? ==>
      && r.outcome.value.statusCode == Created && r.outcome.value.message == AccountUpdated
      && r.after.otps == s.otps && r.after.clock == s.clock
      && r.after.users.Keys == s.users.Keys
      && (forall id :: id in s.users && id != userId ==> r.after.users[id] == s.users[id])
    ensures r.outcome.Ok? && userId !in s.users ==> r.after == s && r.outcome.value.data == None
    ensures r.outcome.Ok? && userId in s.users ==>
      var u, w := s.users[userId], r.after.users[userId];
      && w.email == u.email && w.password == u.password
      && w.isVerified == u.isVerified && w.refreshToken == u.refreshToken
      && w.location == (if Truthy(location) then location else u.location)
      && w.age == (if Truthy(age) then age else u.age)
      && w.workDetails == (if Truthy(workDetails) then workDetails else u.workDetails)
      && r.outcome.value.data == Some(Redact(userId, w))
  {
    if !(Truthy(location) || Truthy(age) || Truthy(workDetails)) then
      Step(s, Err(ApiError(401, AtLeastOneField)))
    else if userId !in s.users then
      Step(s, Ok(Reply(Created, None, AccountUpdated)))
    else
      var updated := ApplyPatch(s.users[userId], PatchOf(location, age, workDetails));
      Step(s.(users := s.users[userId := updated]), Ok(Reply(Created, Some(Redact(userId, updated)), AccountUpdated)))
  }

  method UpdateAccountDetails(db: Db, userId: Id, location: JValue, age: JValue, workDetails: JValue)
    returns (r: Outcome<Reply<Option<UserView>>>)
    requires db.Valid()
    modifies db
    ensures db.Valid()
    ensures Step(db.Snapshot(), r) == UpdateAccountStep(old(db.Snapshot()), userId, location, age, workDetails)
  {
    ghost var spec := UpdateAccountStep(db.Snapshot(), userId, location, age, workDetails);
    if !(Truthy(location) || Truthy(age) || Truthy(workDetails)) {
      return Err(ApiError(401, AtLeastOneField));
    }
    if userId !in db.users {
      return Ok(Reply(Created, None, AccountUpdated));
    }
    var user := db.users[userId];
    if Truthy(location) {
      user := user.(location := location);
    }
    if Truthy(age) {
      user := user.(age := age);
    }
    if Truthy(workDetails) {
      user := user.(workDetails := workDetails);
    }
    assert user == ApplyPatch(old(db.users)[userId], PatchOf(location, age, workDetails));
    db.users := db.users[userId := user];
    r := Ok(Reply(Created, Some(Redact(userId, user)), AccountUpdated));
    assert Step(db.Snapshot(), r) == spec;
    SameEmailsKeepInv(old(db.Snapshot()), db.Snapshot());
  }

  /** Sending the same update twice leaves the store as one update does, and
      both replies carry the same view. */
  lemma UpdateIdempotent(s: State, userId: Id, location: JValue, age: JValue, workDetails: JValue)
    ensures var once := UpdateAccountStep(s, userId, location, age, workDetails);
      var twice := UpdateAccountStep(once.after, userId, location, age, workDetails);
      twice.after == once.after && twice.outcome == once.outcome
  {
    if userId in s.users {
      ApplyPatchIdempotent(s.users[userId], PatchOf(location, age, workDetails));
    }
  }

  // ---------------------------------------------------------------------
  // getCurrentUser

  /** Sends back the user the middleware attached to the request, as it is. */
  function GetCurrentUser(current: UserView): (r: Reply<UserView>)
    ensures r.statusCode == Created && r.data == current
  {
    Reply(Created, current, UserFetched)
  }
}
